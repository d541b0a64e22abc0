/** BZ2_hbMakeCodeLengths: Huffman code lengths with a length limit (libc/huffman.c:61-148). */
module HuffmanLengths {
  import opened Words
  import opened HuffmanHeap
  import opened HuffmanTree
  import opened HuffmanOptimal

  const MAX_ALPHA_SIZE := 258

  // ---- the heap as a set of roots ----

  ghost predicate Lists(h: seq<int>, n: nat, active: set<int>) {
    n < |h| && Distinct(h[1..n + 1]) && Elements(h[1..n + 1]) == active
  }

  lemma ListsRearranged(h: seq<int>, h': seq<int>, n: nat, active: set<int>)
    requires Lists(h, n, active) && |h'| == |h| && multiset(h') == multiset(h) && h'[0] == h[0]
    requires forall i :: n < i < |h| ==> h'[i] == h[i]
    ensures Lists(h', n, active)
  {
    hide Distinct, Elements;
    var s, s' := h[1..n + 1], h'[1..n + 1];
    assert h == [h[0]] + s + h[n + 1..] && h' == [h[0]] + s' + h[n + 1..];
    Cancel(multiset{h[0]}, multiset(s), multiset(s'), multiset(h[n + 1..]));
    DistinctRearranged(s, s');
  }

  lemma ListsWithoutFirst(h: seq<int>, n: nat, active: set<int>)
    requires Lists(h, n, active) && n >= 1
    ensures h[1] in active && Lists(h[1 := h[n]], n - 1, active - {h[1]})
  {
    var s := h[1..n + 1];
    var h' := h[1 := h[n]];
    var s' := h'[1..n];
    assert s[0] == h[1];
    forall i | 0 <= i < |s'|
      ensures s'[i] == if i == 0 then s[n - 1] else s[i]
    {
    }
    forall x | x in active - {h[1]}
      ensures x in s'
    {
      var i :| 0 <= i < |s| && s[i] == x;
      assert s'[if i == n - 1 then 0 else i] == x;
    }
  }

  lemma ListsWith(h: seq<int>, n: nat, active: set<int>, x: int)
    requires Lists(h, n, active) && n + 1 < |h| && x !in active
    ensures Lists(h[n + 1 := x], n + 1, active + {x})
  {
    var h' := h[n + 1 := x];
    var s := h[1..n + 1];
    assert h'[1..n + 2] == s + [x];
    assert forall i :: 0 <= i < n ==> s[i] in active;
  }

  ghost predicate IsLightest(w: seq<int>, active: set<int>, top: int) {
    top in active && 0 < top < |w| && forall r :: r in active ==> 0 < r < |w| && w[top] <= w[r]
  }

  /** Take the lightest root out of the heap. */
  method PopMin(heap: array<int>, weight: array<int>, nHeap: nat, ghost active: set<int>) returns (top: int)
    requires heap != weight && 1 <= nHeap < heap.Length
    requires HeapOrdered(heap[..], weight[..], nHeap) && Lists(heap[..], nHeap, active)
    modifies heap
    ensures IsLightest(weight[..], active, top)
    ensures HeapOrdered(heap[..], weight[..], nHeap - 1) && Lists(heap[..], nHeap - 1, active - {top})
  {
    ghost var h, w := heap[..], weight[..];
    top := heap[1];
    LightestFirst(h, w, nHeap, active);
    ListsWithoutFirst(h, nHeap, active);
    heap[1] := heap[nHeap];
    ghost var h' := heap[..];
    assert h' == h[1 := h[nHeap]];
    FallingAfterPop(h, w, nHeap);
    DownHeap(heap, weight, nHeap - 1);
    ListsRearranged(h', heap[..], nHeap - 1, active - {top});
  }

  lemma LightestFirst(h: seq<int>, w: seq<int>, n: nat, active: set<int>)
    requires HeapOrdered(h, w, n) && n >= 1 && Lists(h, n, active)
    ensures IsLightest(w, active, h[1])
  {
    forall r | r in active
      ensures 0 < r < |w| && w[h[1]] <= w[r]
    {
      var i :| 0 <= i < n && h[1..n + 1][i] == r;
      HeapMin(h, w, n, i + 1);
    }
  }

  lemma FallingAfterPop(h: seq<int>, w: seq<int>, n: nat)
    requires HeapOrdered(h, w, n) && n >= 1
    ensures Falling(h[1 := h[n]], w, n - 1, 1)
  {
  }

  /** Put a root into the heap. */
  method Push(heap: array<int>, weight: array<int>, nHeap: nat, x: int, ghost active: set<int>)
    requires heap != weight && nHeap + 1 < heap.Length && 0 < x < weight.Length && weight[x] > 0 && x !in active
    requires HeapOrdered(heap[..], weight[..], nHeap) && Lists(heap[..], nHeap, active)
    modifies heap
    ensures HeapOrdered(heap[..], weight[..], nHeap + 1) && Lists(heap[..], nHeap + 1, active + {x})
  {
    ghost var h := heap[..];
    ListsWith(h, nHeap, active, x);
    heap[nHeap + 1] := x;
    ghost var h' := heap[..];
    assert h' == h[nHeap + 1 := x];
    UpHeap(heap, weight, nHeap + 1);
    ListsRearranged(h', heap[..], nHeap + 1, active + {x});
  }

  // ---- building the forest ----

  const WEIGHT_LIMIT := 0x80_0000

  ghost predicate AllSmall(leaf: seq<int>) {
    forall i :: 0 <= i < |leaf| ==> leaf[i] <= 2
  }

  /** All that holds of the forest between two merges. */
  ghost predicate Forest(n: nat, weight: seq<int>, parent: seq<int>, nNodes: nat, active: set<int>,
                         leaf: seq<int>, root: seq<int>, depth: seq<int>)
  {
    && |leaf| == n && Total(leaf, n) < WEIGHT_LIMIT
    && Linked(n, parent, nNodes, active, root, depth)
    && Weighed(n, weight, active, leaf, root, depth)
    && Full(n, active, root, depth)
    && Balanced(weight, active)
    && (AllSmall(leaf) ==> Tight(weight, active))
    && Attained(n, weight, active, root, depth)
    && Greedy(weight, active, leaf, depth)
  }

  /** Every root is shallow enough for the depth field. */
  lemma RootDepth(n: nat, weight: seq<int>, parent: seq<int>, nNodes: nat, active: set<int>,
                  leaf: seq<int>, root: seq<int>, depth: seq<int>, r: int)
    requires Forest(n, weight, parent, nNodes, active, leaf, root, depth) && r in active
    ensures 0 < r < |weight| && DepthOf(weight[r]) <= 32 && WeightOf(weight[r]) <= Total(leaf, n)
  {
    SumBounds(leaf, root, r, n);
    DepthFits(WeightOf(weight[r]), DepthOf(weight[r]));
  }

  lemma MergeShallow(n: nat, weight: seq<int>, parent: seq<int>, nNodes: nat, active: set<int>,
                     leaf: seq<int>, root: seq<int>, depth: seq<int>, a: int, b: int)
    requires Forest(n, weight, parent, nNodes, active, leaf, root, depth) && a in active && b in active
    ensures Shallow(MergedDepth(root, depth, a, b))
    ensures DepthOf(weight[a]) < 255 && DepthOf(weight[b]) < 255
  {
    hide Greedy, Attained, Balanced, Tight, AllSmall;
    RootDepth(n, weight, parent, nNodes, active, leaf, root, depth, a);
    RootDepth(n, weight, parent, nNodes, active, leaf, root, depth, b);
    forall i | 0 <= i < n
      ensures 0 <= MergedDepth(root, depth, a, b)[i] < KRAFT_BITS
    {
      RootDepth(n, weight, parent, nNodes, active, leaf, root, depth, root[i]);
    }
  }

  lemma MergeForest(n: nat, weight: seq<int>, parent: seq<int>, nNodes: nat, active: set<int>,
                    leaf: seq<int>, root: seq<int>, depth: seq<int>, a: int, b: int)
    requires Forest(n, weight, parent, nNodes, active, leaf, root, depth) && Lightest(weight, active, a, b)
    requires nNodes + 1 < |parent| == |weight| && parent[0] < 0
    ensures var z := nNodes + 1;
            && weight[a] >= 0 && weight[b] >= 0
            && Forest(n, weight[z := AddWeights(weight[a], weight[b])], parent[z := -1][a := z][b := z], z,
                      MergedRoots(active, a, b, z), leaf, MergedRoot(root, a, b, z), MergedDepth(root, depth, a, b))
  {
    var z := nNodes + 1;
    MergeShallow(n, weight, parent, nNodes, active, leaf, root, depth, a, b);
    assert z !in active;
    MergeLinked(n, parent, nNodes, active, root, depth, a, b);
    hide Linked;
    MergeWeighed(n, weight, active, leaf, root, depth, a, b, z);
    hide Weighed;
    MergeFull(n, active, root, depth, a, b, z);
    hide Full;
    MergeBalanced(weight, active, a, b, z);
    hide Balanced;
    if AllSmall(leaf) { MergeTight(weight, active, a, b, z); }
    hide Tight;
    MergeAttained(n, weight, active, root, depth, a, b, z);
    hide Attained;
    MergeGreedy(n, weight, active, leaf, root, depth, a, b, z);
  }

  ghost function OwnRoots(n: nat): (r: seq<int>)
    ensures |r| == n && forall i :: 0 <= i < n ==> r[i] == i + 1
  {
    seq(n, i => i + 1)
  }

  ghost function Nodes(n: nat): (s: set<int>)
    ensures forall x :: x in s <==> 1 <= x <= n
  {
    if n == 0 then {} else Nodes(n - 1) + {n}
  }

  lemma {:induction false} OwnSum(f: seq<int>, r: int, k: nat)
    requires k <= |f| && 1 <= r
    ensures Sum(f, OwnRoots(|f|), r, k) == if r <= k then f[r - 1] else 0
  {
    if k > 0 { OwnSum(f, r, k - 1); }
  }

  /** Node r starts as the leaf of symbol r-1. */
  ghost predicate LeafWeights(n: nat, weight: seq<int>, leaf: seq<int>) {
    && |leaf| == n < |weight|
    && (forall i :: 0 <= i < n ==> leaf[i] >= 1)
    && forall r :: 1 <= r <= n ==> weight[r] == 256 * leaf[r - 1]
  }

  lemma LeafParts(n: nat, weight: seq<int>, leaf: seq<int>, r: int)
    requires LeafWeights(n, weight, leaf) && 1 <= r <= n
    ensures weight[r] >= 256 && WeightOf(weight[r]) == leaf[r - 1] && DepthOf(weight[r]) == 0
  {
  }

  lemma LeavesPositive(n: nat, weight: seq<int>, leaf: seq<int>)
    requires LeafWeights(n, weight, leaf)
    ensures forall i :: 0 <= i < n ==> leaf[i] >= 1
  {
    forall i | 0 <= i < n
      ensures leaf[i] >= 1
    {
      assert weight[i + 1] == 256 * leaf[(i + 1) - 1];
    }
  }

  lemma StartWeighed(n: nat, weight: seq<int>, leaf: seq<int>)
    requires LeafWeights(n, weight, leaf)
    ensures Weighed(n, weight, Nodes(n), leaf, OwnRoots(n), Repeat(0, n))
  {
    LeavesPositive(n, weight, leaf);
    forall r | r in Nodes(n)
      ensures weight[r] >= 256 && WeightOf(weight[r]) == Sum(leaf, OwnRoots(n), r, n)
    {
      LeafParts(n, weight, leaf, r);
      OwnSum(leaf, r, n);
    }
  }

  lemma StartFull(n: nat)
    ensures Full(n, Nodes(n), OwnRoots(n), Repeat(0, n))
  {
    forall r | r in Nodes(n)
      ensures Sum(Shares(Repeat(0, n)), OwnRoots(n), r, n) == Pow2(KRAFT_BITS)
    {
      OwnSum(Shares(Repeat(0, n)), r, n);
    }
  }

  lemma StartBalanced(n: nat, weight: seq<int>, leaf: seq<int>)
    requires LeafWeights(n, weight, leaf)
    ensures Balanced(weight, Nodes(n))
    ensures AllSmall(leaf) ==> Tight(weight, Nodes(n))
  {
    forall r | r in Nodes(n)
      ensures weight[r] >= 256 && WeightOf(weight[r]) == leaf[r - 1] >= 1 && DepthOf(weight[r]) == 0
    {
      LeafParts(n, weight, leaf, r);
    }
    hide WeightOf, DepthOf;
  }

  lemma StartLinked(n: nat, parent: seq<int>)
    requires n < |parent| && forall r :: 1 <= r <= n ==> parent[r] == -1
    ensures Linked(n, parent, n, Nodes(n), OwnRoots(n), Repeat(0, n))
  {
  }

  lemma ForestFrom(n: nat, weight: seq<int>, parent: seq<int>, nNodes: nat, active: set<int>,
                   leaf: seq<int>, root: seq<int>, depth: seq<int>)
    requires |leaf| == n && Total(leaf, n) < WEIGHT_LIMIT
    requires Linked(n, parent, nNodes, active, root, depth) && Weighed(n, weight, active, leaf, root, depth)
    requires Full(n, active, root, depth) && Balanced(weight, active) && (AllSmall(leaf) ==> Tight(weight, active))
    requires Attained(n, weight, active, root, depth) && Greedy(weight, active, leaf, depth)
    ensures Forest(n, weight, parent, nNodes, active, leaf, root, depth)
  {
    hide Linked, Weighed, Full, Balanced, Tight, AllSmall, Attained, Greedy;
  }

  lemma StartAttained(n: nat, weight: seq<int>, leaf: seq<int>)
    requires LeafWeights(n, weight, leaf)
    ensures Attained(n, weight, Nodes(n), OwnRoots(n), Repeat(0, n))
  {
    forall r | r in Nodes(n)
      ensures exists i :: 0 <= i < n && OwnRoots(n)[i] == r && Repeat(0, n)[i] == DepthOf(weight[r])
    {
      LeafParts(n, weight, leaf, r);
      assert OwnRoots(n)[r - 1] == r;
    }
  }

  lemma {:induction false} NothingPaid(leaf: seq<int>)
    ensures Cost(leaf, Repeat(0, |leaf|)) == 0
  {
    var n := |leaf|;
    if n > 0 {
      NothingPaid(leaf[..n - 1]);
      assert Repeat(0, n)[..n - 1] == Repeat(0, n - 1);
    }
  }

  lemma StartGreedy(n: nat, weight: seq<int>, leaf: seq<int>)
    requires LeafWeights(n, weight, leaf)
    ensures Greedy(weight, Nodes(n), leaf, Repeat(0, n))
  {
    hide Reduces, Cost;
    var roots := OwnRoots(n);
    forall r ensures r in Nodes(n) <==> r in roots { if 1 <= r <= n { assert roots[r - 1] == r; } }
    assert Listing(roots, Nodes(n), weight);
    forall k | 0 <= k < n ensures Weights(roots, weight)[k] == leaf[k] { LeafParts(n, weight, leaf, k + 1); }
    assert Weights(roots, weight) == leaf;
    NothingPaid(leaf);
    ReducesNone(leaf);
  }

  lemma ForestStarts(n: nat, weight: seq<int>, parent: seq<int>, leaf: seq<int>)
    requires LeafWeights(n, weight, leaf) && |leaf| == n < |parent| && Total(leaf, n) < WEIGHT_LIMIT
    requires forall r :: 1 <= r <= n ==> parent[r] == -1
    ensures Forest(n, weight, parent, n, Nodes(n), leaf, OwnRoots(n), Repeat(0, n))
  {
    hide *;
    StartWeighed(n, weight, leaf);
    StartFull(n);
    StartBalanced(n, weight, leaf);
    StartLinked(n, parent);
    StartAttained(n, weight, leaf);
    StartGreedy(n, weight, leaf);
    ForestFrom(n, weight, parent, n, Nodes(n), leaf, OwnRoots(n), Repeat(0, n));
  }

  /** What one round of the merge loop needs and keeps. */
  ghost predicate Merging(n: nat, heap: seq<int>, weight: seq<int>, parent: seq<int>, nHeap: nat, nNodes: nat,
                          active: set<int>, leaf: seq<int>, root: seq<int>, depth: seq<int>)
  {
    && |parent| == |weight| > 0 && parent[0] < 0
    && HeapOrdered(heap, weight, nHeap) && Lists(heap, nHeap, active)
    && Forest(n, weight, parent, nNodes, active, leaf, root, depth)
    && LeafWeights(n, weight, leaf)
  }

  /** The first loop: every symbol its own tree, all of them in the heap. */
  method StartForest(heap: array<int>, weight: array<int>, parent: array<int>, n: nat, ghost leaf: seq<int>)
    requires heap != weight && heap != parent && weight != parent && n + 1 < heap.Length && n < weight.Length == parent.Length
    requires LeafWeights(n, weight[..], leaf) && Total(leaf, n) < WEIGHT_LIMIT
    modifies heap, weight, parent
    ensures Merging(n, heap[..], weight[..], parent[..], n, n, Nodes(n), leaf, OwnRoots(n), Repeat(0, n))
  {
    hide *;
    ghost var w := weight[..][0 := 0];
    LeavesKept(n, weight[..], w, leaf);
    heap[0] := 0;
    weight[0] := 0;
    parent[0] := -2;
    assert weight[..] == w;
    EmptyHeap(heap[..], w);
    for i := 1 to n + 1
      modifies heap, parent
      invariant parent[0] == -2 && forall k :: 1 <= k < i ==> parent[k] == -1
      invariant weight[..] == w
      invariant HeapOrdered(heap[..], w, i - 1) && Lists(heap[..], i - 1, Nodes(i - 1))
    {
      parent[i] := -1;
      LeafAt(n, w, leaf, i);
      Push(heap, weight, i - 1, i, Nodes(i - 1));
    }
    ForestStarts(n, w, parent[..], leaf);
    Packs(n, heap[..], w, parent[..], n, n, Nodes(n), leaf, OwnRoots(n), Repeat(0, n));
  }

  lemma LeafAt(n: nat, w: seq<int>, leaf: seq<int>, i: int)
    requires LeafWeights(n, w, leaf) && 1 <= i <= n
    ensures w[i] > 0 && Nodes(i) == Nodes(i - 1) + {i} && i !in Nodes(i - 1) && |leaf| == n
  {
  }

  lemma EmptyHeap(h: seq<int>, w: seq<int>)
    requires |h| > 0 && |w| > 0 && h[0] == 0 && w[0] == 0
    ensures HeapOrdered(h, w, 0) && Lists(h, 0, Nodes(0))
  {
    assert h[1..1] == [];
  }

  lemma Packs(n: nat, heap: seq<int>, weight: seq<int>, parent: seq<int>, nHeap: nat, nNodes: nat,
              active: set<int>, leaf: seq<int>, root: seq<int>, depth: seq<int>)
    requires |parent| == |weight| > 0 && parent[0] < 0
    requires HeapOrdered(heap, weight, nHeap) && Lists(heap, nHeap, active)
    requires Forest(n, weight, parent, nNodes, active, leaf, root, depth) && LeafWeights(n, weight, leaf)
    ensures Merging(n, heap, weight, parent, nHeap, nNodes, active, leaf, root, depth)
  {
  }

  lemma Unpacks(n: nat, heap: seq<int>, weight: seq<int>, parent: seq<int>, nHeap: nat, nNodes: nat,
                active: set<int>, leaf: seq<int>, root: seq<int>, depth: seq<int>)
    requires Merging(n, heap, weight, parent, nHeap, nNodes, active, leaf, root, depth)
    ensures |parent| == |weight| > 0 && parent[0] < 0 && |root| == |depth| && n <= nNodes
    ensures HeapOrdered(heap, weight, nHeap) && Lists(heap, nHeap, active)
    ensures Forest(n, weight, parent, nNodes, active, leaf, root, depth) && LeafWeights(n, weight, leaf)
  {
  }

  // ---- merging, measuring and retrying ----

  /** Give a new node its two children and its weight. */
  method JoinNodes(weight: array<int>, parent: array<int>, n1: int, n2: int, z: int)
    requires weight != parent && 0 < n1 < z < weight.Length && 0 < n2 < z && parent.Length == weight.Length
    requires weight[n1] >= 0 && weight[n2] >= 0
    modifies weight, parent
    ensures parent[..] == old(parent[..])[z := -1][n1 := z][n2 := z]
    ensures weight[..] == old(weight[..])[z := AddWeights(old(weight[n1]), old(weight[n2]))]
  {
    parent[z] := -1;
    parent[n1] := z;
    parent[n2] := z;
    weight[z] := AddWeights(weight[n1], weight[n2]);
  }

  method MergeOnce(heap: array<int>, weight: array<int>, parent: array<int>, n: nat, nHeap: nat, nNodes: nat,
                   ghost active: set<int>, ghost leaf: seq<int>, ghost root: seq<int>, ghost depth: seq<int>)
    returns (ghost active': set<int>, ghost root': seq<int>, ghost depth': seq<int>)
    requires heap != weight && heap != parent && weight != parent && 2 <= nHeap < heap.Length && nNodes + 1 < weight.Length
    requires Merging(n, heap[..], weight[..], parent[..], nHeap, nNodes, active, leaf, root, depth)
    modifies heap, weight, parent
    ensures Merging(n, heap[..], weight[..], parent[..], nHeap - 1, nNodes + 1, active', leaf, root', depth')
  {
    hide *;
    ghost var w, par, z := weight[..], parent[..], nNodes + 1;
    Unpacks(n, heap[..], w, par, nHeap, nNodes, active, leaf, root, depth);
    var n1 := PopMin(heap, weight, nHeap, active);
    assert weight[..] == w && parent[..] == par;
    var n2 := PopMin(heap, weight, nHeap - 1, active - {n1});
    assert weight[..] == w && parent[..] == par;
    LightestPair(w, active, n1, n2, n, par, nNodes, leaf, root, depth);
    MergeForest(n, w, par, nNodes, active, leaf, root, depth, n1, n2);
    JoinNodes(weight, parent, n1, n2, nNodes + 1);
    ghost var rest := active - {n1} - {n2};
    NewNode(n, heap[..], w, weight[..], nHeap - 2, rest, leaf, z);
    Push(heap, weight, nHeap - 2, nNodes + 1, rest);
    active', root', depth' := MergedRoots(active, n1, n2, z), MergedRoot(root, n1, n2, z), MergedDepth(root, depth, n1, n2);
    RootsMerged(active, n1, n2, z);
    Packs(n, heap[..], weight[..], parent[..], nHeap - 1, nNodes + 1, active', leaf, root', depth');
  }

  lemma RootsMerged(active: set<int>, a: int, b: int, z: int)
    ensures active - {a} - {b} + {z} == MergedRoots(active, a, b, z)
  {
  }

  /** A new node's weight disturbs neither the heap nor the leaves. */
  lemma NewNode(n: nat, h: seq<int>, w: seq<int>, w': seq<int>, nHeap: nat, active: set<int>, leaf: seq<int>, z: int)
    requires HeapOrdered(h, w, nHeap) && Lists(h, nHeap, active) && z !in active && LeafWeights(n, w, leaf)
    requires n < z < |w| == |w'| && forall k :: 0 <= k < |w| && k != z ==> w'[k] == w[k]
    ensures HeapOrdered(h, w', nHeap) && LeafWeights(n, w', leaf)
  {
    forall i | 1 <= i <= nHeap
      ensures h[i] != z
    {
      assert h[1..nHeap + 1][i - 1] == h[i];
    }
    LeavesKept(n, w, w', leaf);
  }

  lemma LeavesKept(n: nat, w: seq<int>, w': seq<int>, leaf: seq<int>)
    requires LeafWeights(n, w, leaf) && |w'| == |w| && forall k :: 1 <= k <= n ==> w'[k] == w[k]
    ensures LeafWeights(n, w', leaf) && |leaf| == n
  {
    forall r | 1 <= r <= n ensures w'[r] == 256 * leaf[r - 1] {
      assert w'[r] == w[r];
    }
  }

  lemma LightestPair(w: seq<int>, active: set<int>, a: int, b: int, n: nat, parent: seq<int>, nNodes: nat,
                     leaf: seq<int>, root: seq<int>, depth: seq<int>)
    requires Forest(n, w, parent, nNodes, active, leaf, root, depth)
    requires IsLightest(w, active, a) && IsLightest(w, active - {a}, b)
    ensures 0 < a < |w| && 0 < b < |w| && a != b && Lightest(w, active, a, b) && nNodes + 1 !in active && w[a] >= 256 && w[b] >= 256
    ensures n <= nNodes && a <= nNodes && b <= nNodes
    ensures AddWeights(w[a], w[b]) > 0 && |root| == |depth|
  {
    hide Greedy, Attained, Balanced, Tight, AllSmall, Full;
    RootDepth(n, w, parent, nNodes, active, leaf, root, depth, a);
    RootDepth(n, w, parent, nNodes, active, leaf, root, depth, b);
    AddWeightsParts(w[a], w[b]);
  }

  /** The merge loop: ends with one tree over all symbols. */
  method BuildTree(heap: array<int>, weight: array<int>, parent: array<int>, n: nat, ghost leaf: seq<int>)
    returns (nNodes: nat, ghost root: seq<int>, ghost depth: seq<int>)
    requires heap != weight && heap != parent && weight != parent && 1 <= n <= MAX_ALPHA_SIZE && heap.Length == MAX_ALPHA_SIZE + 2
    requires weight.Length == parent.Length == 2 * MAX_ALPHA_SIZE
    requires LeafWeights(n, weight[..], leaf) && Total(leaf, n) < WEIGHT_LIMIT
    modifies heap, weight, parent
    ensures nNodes == 2 * n - 1 < weight.Length
    ensures Forest(n, weight[..], parent[..], nNodes, {nNodes}, leaf, root, depth)
    ensures LeafWeights(n, weight[..], leaf)
  {
    hide *;
    StartForest(heap, weight, parent, n, leaf);
    nNodes := n;
    ghost var active := Nodes(n);
    root, depth := OwnRoots(n), Repeat(0, n);
    var nHeap := n;
    assert n < MAX_ALPHA_SIZE + 2;
    while nHeap > 1
      invariant 1 <= nHeap <= n && nNodes + nHeap == 2 * n
      invariant Merging(n, heap[..], weight[..], parent[..], nHeap, nNodes, active, leaf, root, depth)
    {
      active, root, depth := MergeOnce(heap, weight, parent, n, nHeap, nNodes, active, leaf, root, depth);
      nNodes := nNodes + 1;
      nHeap := nHeap - 1;
    }
    OneTree(n, heap[..], weight[..], parent[..], nNodes, active, leaf, root, depth);
  }

  /** A single remaining root is the last node made. */
  lemma OneTree(n: nat, heap: seq<int>, weight: seq<int>, parent: seq<int>, nNodes: nat, active: set<int>,
                leaf: seq<int>, root: seq<int>, depth: seq<int>)
    requires Merging(n, heap, weight, parent, 1, nNodes, active, leaf, root, depth) && n >= 1
    ensures active == {nNodes}
    ensures Forest(n, weight, parent, nNodes, active, leaf, root, depth) && LeafWeights(n, weight, leaf)
  {
    hide Weighed, Full, Balanced, Tight, HeapOrdered, LeafWeights, Reaches, Total;
    assert heap[1..2] == [heap[1]];
    assert active == {heap[1]};
    assert nNodes in active;
  }

  /** Follow the parent links from each leaf: its code length is its depth. */
  method Measure(parent: array<int>, len: array<Byte>, n: nat, maxLen: nat, ghost nNodes: nat,
                 ghost root: seq<int>, ghost depth: seq<int>)
    returns (tooLong: bool)
    requires n <= len.Length && Linked(n, parent[..], nNodes, {nNodes}, root, depth) && Shallow(depth)
    modifies len
    ensures forall i :: 0 <= i < n ==> len[i] == depth[i]
    ensures tooLong <==> exists i :: 0 <= i < n && depth[i] > maxLen
  {
    ghost var par := parent[..];
    tooLong := false;
    for i := 0 to n
      invariant par == parent[..]
      invariant forall k :: 0 <= k < i ==> len[k] == depth[k]
      invariant tooLong <==> exists k :: 0 <= k < i && depth[k] > maxLen
    {
      var j, k := 0, i + 1;
      assert Reaches(par, k, depth[i], root[i]) && root[i] == nNodes;
      while parent[k] >= 0
        invariant 0 <= j <= depth[i] < KRAFT_BITS && 0 <= k < parent.Length && Reaches(par, k, depth[i] - j, nNodes)
        decreases depth[i] - j
      {
        k := parent[k];
        j := j + 1;
      }
      len[i] := j;
      if j > maxLen { tooLong := true; }
    }
  }

  /** The count-scaling step. */
  method Halve(weight: array<int>, n: nat, ghost leaf: seq<int>) returns (ghost leaf': seq<int>)
    requires LeafWeights(n, weight[..], leaf)
    modifies weight
    ensures LeafWeights(n, weight[..], leaf')
    ensures |leaf| == |leaf'| == n && forall i :: 0 <= i < n ==> leaf[i] >= 1 && leaf'[i] == 1 + leaf[i] / 2
  {
    LeavesPositive(n, weight[..], leaf);
    leaf' := seq(n, i requires 0 <= i < n => 1 + leaf[i] / 2);
    ghost var w := weight[..];
    for i := 1 to n + 1
      invariant forall r :: 1 <= r < i ==> weight[r] == 256 * leaf'[r - 1]
      invariant forall r :: i <= r <= n ==> weight[r] == w[r]
    {
      var j := weight[i] / 256;
      assert w[i] == 256 * leaf[i - 1];
      j := 1 + j / 2;
      weight[i] := j * 256;
    }
    forall r | 1 <= r <= n
      ensures leaf'[r - 1] >= 1 && weight[r] == 256 * leaf'[r - 1]
    {
      assert w[r] == 256 * leaf[r - 1];
    }
  }

  lemma {:induction false} HalvedTotal(leaf: seq<int>, leaf': seq<int>, k: nat)
    requires k <= |leaf| == |leaf'| && forall i :: 0 <= i < k ==> leaf[i] >= 1 && leaf'[i] == 1 + leaf[i] / 2
    ensures Total(leaf', k) <= Total(leaf, k)
    ensures (exists i :: 0 <= i < k && leaf[i] > 2) ==> Total(leaf', k) < Total(leaf, k)
    ensures 0 <= Total(leaf', k)
  {
    if k > 0 { HalvedTotal(leaf, leaf', k - 1); }
  }

  lemma {:induction false} SmallTotal(leaf: seq<int>, k: nat)
    requires k <= |leaf| && AllSmall(leaf)
    ensures Total(leaf, k) <= 2 * k
  {
    if k > 0 { SmallTotal(leaf, k - 1); }
  }

  /** With all leaf weights 1 or 2, no code of 258 symbols is longer than 15 bits. */
  lemma SmallIsShort(n: nat, weight: seq<int>, parent: seq<int>, nNodes: nat, active: set<int>,
                     leaf: seq<int>, root: seq<int>, depth: seq<int>, i: nat)
    requires Forest(n, weight, parent, nNodes, active, leaf, root, depth) && AllSmall(leaf) && i < n <= MAX_ALPHA_SIZE
    ensures depth[i] <= 15
  {
    var r := root[i];
    RootDepth(n, weight, parent, nNodes, active, leaf, root, depth, r);
    SmallTotal(leaf, n);
    TightShallow(WeightOf(weight[r]), DepthOf(weight[r]));
  }

  /** What a finished tree gives: a complete code, no length zero. */
  lemma TreeCode(n: nat, weight: seq<int>, parent: seq<int>, nNodes: nat, leaf: seq<int>, root: seq<int>, depth: seq<int>)
    requires Forest(n, weight, parent, nNodes, {nNodes}, leaf, root, depth) && nNodes == 2 * n - 1 && n >= 2
    ensures Linked(n, parent, nNodes, {nNodes}, root, depth)
    ensures |depth| == n && Shallow(depth) && Total(Shares(depth), n) == Pow2(KRAFT_BITS)
    ensures forall i :: 0 <= i < n ==> depth[i] >= 1 && leaf[i] >= 1
  {
    hide Greedy, Attained, Balanced, Tight, AllSmall, Pow2;
    SumBounds(Shares(depth), root, nNodes, n);
    forall i | 0 <= i < n
      ensures depth[i] >= 1
    {
      assert Reaches(parent, i + 1, depth[i], root[i]);
    }
  }

  /** Lengths of a complete prefix code: between 1 and the limit, Kraft sum exactly one. */
  ghost predicate CompleteLengths(len: seq<int>, maxLen: int) {
    && maxLen < KRAFT_BITS
    && (forall i :: 0 <= i < |len| ==> 1 <= len[i] <= maxLen)
    && Total(Shares(len), |len|) == Pow2(KRAFT_BITS)
  }

  ghost function StartLeaves(freq: seq<int>): (leaf: seq<int>)
    ensures |leaf| == |freq| && forall i :: 0 <= i < |freq| ==> leaf[i] == if freq[i] == 0 then 1 else freq[i]
  {
    seq(|freq|, i requires 0 <= i < |freq| => if freq[i] == 0 then 1 else freq[i])
  }

  /** One attempt: build the tree and measure it. It fails only if some leaf weight exceeds 2. */
  method Attempt(heap: array<int>, weight: array<int>, parent: array<int>, len: array<Byte>, n: nat, maxLen: nat, ghost leaf: seq<int>)
    returns (tooLong: bool)
    requires heap != weight && heap != parent && weight != parent
    requires 2 <= n <= MAX_ALPHA_SIZE && n <= len.Length && heap.Length == MAX_ALPHA_SIZE + 2
    requires weight.Length == parent.Length == 2 * MAX_ALPHA_SIZE && 15 <= maxLen < KRAFT_BITS
    requires LeafWeights(n, weight[..], leaf) && Total(leaf, n) < WEIGHT_LIMIT
    modifies heap, weight, parent, len
    ensures LeafWeights(n, weight[..], leaf)
    ensures !tooLong ==> CompleteLengths(len[..n], maxLen) && Optimal(leaf, len[..n])
    ensures tooLong ==> !AllSmall(leaf) && Total(leaf, n) >= Fib(maxLen + 1)
  {
    hide *;
    var nNodes;
    ghost var root, depth;
    nNodes, root, depth := BuildTree(heap, weight, parent, n, leaf);
    ghost var w, par := weight[..], parent[..];
    TreeCode(n, w, par, nNodes, leaf, root, depth);
    tooLong := Measure(parent, len, n, maxLen, nNodes, root, depth);
    assert len[..n] == depth && weight[..] == w;
    Judge(n, w, par, nNodes, leaf, root, depth, maxLen, tooLong);
  }

  lemma Judge(n: nat, weight: seq<int>, parent: seq<int>, nNodes: nat, leaf: seq<int>, root: seq<int>, depth: seq<int>,
              maxLen: nat, tooLong: bool)
    requires Forest(n, weight, parent, nNodes, {nNodes}, leaf, root, depth) && nNodes == 2 * n - 1
    requires 2 <= n <= MAX_ALPHA_SIZE && 15 <= maxLen < KRAFT_BITS && |depth| == n
    requires tooLong <==> exists i :: 0 <= i < n && depth[i] > maxLen
    ensures !tooLong ==> CompleteLengths(depth, maxLen) && Optimal(leaf, depth)
    ensures tooLong ==> !AllSmall(leaf) && Total(leaf, n) >= Fib(maxLen + 1)
  {
    hide Optimal, Fib, Forest, Greedy, Linked, AllSmall, Total;
    TreeCode(n, weight, parent, nNodes, leaf, root, depth);
    TreeGreedy(n, weight, parent, nNodes, leaf, root, depth);
    GreedyEnds(weight, nNodes, leaf, depth);
    if tooLong {
      var i :| 0 <= i < n && depth[i] > maxLen;
      DeepIsHeavy(n, weight, parent, nNodes, {nNodes}, leaf, root, depth, i);
      FibMonotone(maxLen + 1, depth[i]);
      if AllSmall(leaf) {
        SmallIsShort(n, weight, parent, nNodes, {nNodes}, leaf, root, depth, i);
        assert false;
      }
    }
  }

  lemma TreeGreedy(n: nat, weight: seq<int>, parent: seq<int>, nNodes: nat, leaf: seq<int>, root: seq<int>, depth: seq<int>)
    requires Forest(n, weight, parent, nNodes, {nNodes}, leaf, root, depth)
    ensures Greedy(weight, {nNodes}, leaf, depth) && 0 <= nNodes < |weight| && weight[nNodes] >= 0
  {
    hide Greedy, Attained, Tight, Full, Balanced, Linked;
  }

  /** A code word of d bits needs at least Fib(d) occurrences in all. */
  lemma DeepIsHeavy(n: nat, weight: seq<int>, parent: seq<int>, nNodes: nat, active: set<int>,
                    leaf: seq<int>, root: seq<int>, depth: seq<int>, i: nat)
    requires Forest(n, weight, parent, nNodes, active, leaf, root, depth) && i < n
    ensures depth[i] >= 0 && Total(leaf, n) >= Fib(depth[i])
  {
    hide Greedy, Attained, Tight, Full, Fib;
    var r := root[i];
    RootDepth(n, weight, parent, nNodes, active, leaf, root, depth, r);
    FibMonotone(depth[i], DepthOf(weight[r]));
  }

  /** The leaf weights after some scalings. */
  ghost function Scaled(leaf: seq<int>, times: nat): (s: seq<int>)
    ensures |s| == |leaf|
  {
    if times == 0 then leaf
    else
      var s := Scaled(leaf, times - 1);
      seq(|leaf|, i requires 0 <= i < |leaf| => 1 + s[i] / 2)
  }

  lemma ScaledNext(leaf: seq<int>, times: nat, now: seq<int>, next: seq<int>)
    requires now == Scaled(leaf, times) && |next| == |now| && forall i :: 0 <= i < |now| ==> next[i] == 1 + now[i] / 2
    ensures next == Scaled(leaf, times + 1)
  {
  }

  /**
   * BZ2_hbMakeCodeLengths terminates and returns a complete code within the limit. A retry means some
   * leaf weight exceeds 2, and halving then lowers their sum; with all weights 1 or 2 no retry occurs.
   * No prefix code at all costs less for the frequencies as they are scaled in the end, and they are
   * scaled only if there are enough occurrences for a word longer than the limit.
   */
  method MakeCodeLengths(len: array<Byte>, freq: array<int>, alphaSize: nat, maxLen: nat) returns (ghost scalings: nat)
    requires 2 <= alphaSize <= MAX_ALPHA_SIZE && alphaSize <= len.Length && alphaSize <= freq.Length
    requires 15 <= maxLen < KRAFT_BITS
    requires forall i :: 0 <= i < alphaSize ==> freq[i] >= 0
    requires Total(StartLeaves(freq[..alphaSize]), alphaSize) < WEIGHT_LIMIT
    modifies len
    ensures CompleteLengths(len[..alphaSize], maxLen)
    ensures Optimal(Scaled(StartLeaves(freq[..alphaSize]), scalings), len[..alphaSize])
    ensures scalings > 0 ==> Total(StartLeaves(freq[..alphaSize]), alphaSize) >= Fib(maxLen + 1)
  {
    hide Optimal, Fib;
    ghost var all := StartLeaves(freq[..alphaSize]);
    scalings := 0;
    var heap := new int[MAX_ALPHA_SIZE + 2];
    var weight := new int[2 * MAX_ALPHA_SIZE];
    var parent := new int[2 * MAX_ALPHA_SIZE];
    ghost var leaf := StartLeaves(freq[..alphaSize]);
    for i := 0 to alphaSize
      modifies weight
      invariant forall r :: 1 <= r <= i ==> weight[r] == 256 * leaf[r - 1]
    {
      weight[i + 1] := (if freq[i] == 0 then 1 else freq[i]) * 256;
    }
    assert LeafWeights(alphaSize, weight[..], leaf);
    hide LeafWeights, CompleteLengths, Scaled;
    ScaledNone(all);
    while true
      modifies heap, weight, parent, len
      invariant LeafWeights(alphaSize, weight[..], leaf) && |leaf| == alphaSize && Total(leaf, alphaSize) < WEIGHT_LIMIT
      invariant leaf == Scaled(all, scalings) && (scalings > 0 ==> Total(all, alphaSize) >= Fib(maxLen + 1))
      decreases Total(leaf, alphaSize)
    {
      var tooLong := Attempt(heap, weight, parent, len, alphaSize, maxLen, leaf);
      if !tooLong { break; }
      ghost var leaf' := Halve(weight, alphaSize, leaf);
      Shrinks(alphaSize, leaf, leaf');
      ScaledNext(all, scalings, leaf, leaf');
      leaf, scalings := leaf', scalings + 1;
    }
  }

  lemma ScaledNone(leaf: seq<int>)
    ensures Scaled(leaf, 0) == leaf
  {
  }

  lemma Shrinks(n: nat, leaf: seq<int>, leaf': seq<int>)
    requires |leaf| == |leaf'| == n && !AllSmall(leaf)
    requires forall i :: 0 <= i < n ==> leaf[i] >= 1 && leaf'[i] == 1 + leaf[i] / 2
    ensures 0 <= Total(leaf', n) < Total(leaf, n)
  {
    HalvedTotal(leaf, leaf', n);
  }
}
