/** The binary heap inside BZ2_hbMakeCodeLengths: UPHEAP and DOWNHEAP (libc/huffman.c:33-59). */
module HuffmanHeap {
  import opened Words

  /** Entries 1..n of the heap index the weight table; entry 0 is the sentinel of weight 0. */
  ghost predicate HeapShape(h: seq<int>, w: seq<int>, n: nat) {
    && n < |h| && |w| > 0 && h[0] == 0 && w[0] == 0
    && forall i :: 1 <= i <= n ==> 0 < h[i] < |w| && w[h[i]] > 0
  }

  /** Every entry except possibly the one at `but` is no lighter than its parent. */
  ghost predicate HeapExcept(h: seq<int>, w: seq<int>, n: nat, but: int)
    requires HeapShape(h, w, n)
  {
    forall i :: 2 <= i <= n && i != but ==> w[h[i / 2]] <= w[h[i]]
  }

  ghost predicate HeapOrdered(h: seq<int>, w: seq<int>, n: nat) {
    HeapShape(h, w, n) && HeapExcept(h, w, n, 0)
  }

  lemma {:induction false} HeapMin(h: seq<int>, w: seq<int>, n: nat, i: nat)
    requires HeapOrdered(h, w, n) && 1 <= i <= n
    ensures w[h[1]] <= w[h[i]]
  {
    if i > 1 { HeapMin(h, w, n, i / 2); }
  }

  // ---- UPHEAP ----

  /** The sift-up loop on values: `tmp` rises from cell z past heavier parents. */
  ghost function Risen(h: seq<int>, w: seq<int>, tmp: int, z: nat): seq<int>
    requires z < |h| && 0 <= tmp < |w| && forall i :: 0 <= i <= z ==> 0 <= h[i] < |w|
    decreases z
  {
    if z > 0 && w[tmp] < w[h[z / 2]] then Risen(h[z := h[z / 2]], w, tmp, z / 2) else h[z := tmp]
  }

  /** With tmp in cell z, only z may be lighter than its parent, and z's children respect that parent. */
  ghost predicate Rising(h: seq<int>, w: seq<int>, n: nat, z: nat) {
    && HeapShape(h, w, n) && 1 <= z <= n
    && HeapExcept(h, w, n, z)
    && forall i :: 2 <= i <= n && i / 2 == z && z > 1 ==> w[h[z / 2]] <= w[h[i]]
  }

  lemma RisingIn(h: seq<int>, w: seq<int>, n: nat, tmp: int, z: nat)
    requires 1 <= z <= n < |h| && Rising(h[z := tmp], w, n, z) && 0 <= h[z] < |w|
    ensures 0 < tmp < |w| && (forall i :: 0 <= i <= n ==> 0 <= h[i] < |w|)
  {
    var v := h[z := tmp];
    assert v[z] == tmp && v[0] == h[0];
    forall i | 0 <= i <= n ensures 0 <= h[i] < |w| {
      if i != z { assert v[i] == h[i]; }
    }
  }

  /** The parent is heavier: it moves down, and tmp may rise into its place. */
  lemma RisingUp(h: seq<int>, w: seq<int>, n: nat, tmp: int, z: nat)
    requires 1 <= z <= n < |h| && Rising(h[z := tmp], w, n, z) && 0 <= h[z] < |w| && 0 <= tmp < |w| && 0 <= h[z / 2] < |w|
    requires w[tmp] < w[h[z / 2]]
    ensures z > 1 && Rising(h[z := h[z / 2]][z / 2 := tmp], w, n, z / 2)
  {
    var v, y := h[z := tmp], z / 2;
    assert v[z] == tmp && v[0] == h[0] && y < z;
    assert w[h[0]] == 0;
    var u := h[z := h[y]][y := tmp];
    assert u[z] == h[y] == v[y] && u[y] == tmp;
    assert forall i :: 0 <= i < |h| && i != y && i != z ==> u[i] == v[i];
    assert HeapShape(u, w, n);
    forall i | 2 <= i <= n && i != y ensures w[u[i / 2]] <= w[u[i]] {
      UpPair(v, u, w, n, z, i);
    }
    if y > 1 {
      forall i | 2 <= i <= n && i / 2 == y ensures w[u[y / 2]] <= w[u[i]] {
        assert w[v[y / 2]] <= w[v[y]];
        if i != z { assert w[v[y]] <= w[v[i]]; }
      }
    }
  }

  lemma UpPair(v: seq<int>, u: seq<int>, w: seq<int>, n: nat, z: nat, i: nat)
    requires Rising(v, w, n, z) && z > 1 && |u| == |v| && HeapShape(u, w, n) && w[v[z]] < w[v[z / 2]]
    requires u[z] == v[z / 2] && u[z / 2] == v[z] && forall k :: 0 <= k < |v| && k != z / 2 && k != z ==> u[k] == v[k]
    requires 2 <= i <= n && i != z / 2
    ensures w[u[i / 2]] <= w[u[i]]
  {
    var y := z / 2;
    if i == z {
      assert u[i / 2] == v[z] && u[i] == v[y];
    } else if i / 2 == z {
      assert w[v[y]] <= w[v[i]];
    } else {
      assert w[v[i / 2]] <= w[v[i]];
    }
  }

  lemma RisingEnds(h: seq<int>, w: seq<int>, n: nat, tmp: int, z: nat)
    requires 1 <= z <= n < |h| && Rising(h[z := tmp], w, n, z) && 0 <= tmp < |w| && 0 <= h[z / 2] < |w| && w[h[z / 2]] <= w[tmp]
    ensures HeapOrdered(h[z := tmp], w, n)
  {
    var v := h[z := tmp];
    assert v[z] == tmp && v[z / 2] == h[z / 2];
    forall i | 2 <= i <= n ensures w[v[i / 2]] <= w[v[i]] {}
  }

  lemma {:induction false} RisenOrdered(h: seq<int>, w: seq<int>, n: nat, tmp: int, z: nat)
    requires 1 <= z <= n < |h| && Rising(h[z := tmp], w, n, z) && 0 <= h[z] < |w|
    ensures 0 < tmp < |w| && (forall i :: 0 <= i <= z ==> 0 <= h[i] < |w|)
    ensures HeapOrdered(Risen(h, w, tmp, z), w, n) && |Risen(h, w, tmp, z)| == |h|
    ensures multiset(Risen(h, w, tmp, z)) == multiset(h[z := tmp])
    ensures forall i :: n < i < |h| ==> Risen(h, w, tmp, z)[i] == h[i]
    decreases z
  {
    hide Rising, HeapOrdered;
    RisingIn(h, w, n, tmp, z);
    if w[tmp] < w[h[z / 2]] {
      RisingUp(h, w, n, tmp, z);
      HoleMoved(h, z, z / 2, tmp);
      RisenOrdered(h[z := h[z / 2]], w, n, tmp, z / 2);
    } else {
      RisingEnds(h, w, n, tmp, z);
    }
  }

  method UpHeap(heap: array<int>, weight: array<int>, nHeap: nat)
    requires heap != weight && 1 <= nHeap < heap.Length
    requires HeapShape(heap[..], weight[..], nHeap) && HeapExcept(heap[..], weight[..], nHeap, nHeap)
    modifies heap
    ensures HeapOrdered(heap[..], weight[..], nHeap)
    ensures multiset(heap[..]) == multiset(old(heap[..]))
    ensures forall i :: nHeap < i < heap.Length ==> heap[i] == old(heap[i])
  {
    ghost var w := weight[..];
    var zz := nHeap;
    var tmp := heap[zz];
    assert heap[..][zz := tmp] == heap[..];
    RisenOrdered(heap[..], w, nHeap, tmp, zz);
    ghost var done := Risen(heap[..], w, tmp, zz);
    assert weight[tmp] > 0 && heap[0] == 0 && weight[0] == 0;
    hide HeapOrdered, HeapShape, HeapExcept;
    while weight[tmp] < weight[heap[zz / 2]]
      invariant 1 <= zz <= nHeap && heap[0] == 0
      invariant forall i :: 0 <= i <= zz ==> 0 <= heap[i] < weight.Length
      invariant Risen(heap[..], w, tmp, zz) == done
      decreases zz
    {
      ghost var h := heap[..];
      heap[zz] := heap[zz / 2];
      assert heap[..] == h[zz := h[zz / 2]];
      zz := zz / 2;
    }
    assert done == heap[..][zz := tmp];
    heap[zz] := tmp;
    assert heap[..] == done;
  }

  // ---- DOWNHEAP ----

  /** The child the loop compares with: the right one only if it is strictly lighter. */
  ghost function Child(h: seq<int>, w: seq<int>, n: nat, z: nat): nat
    requires 1 <= z && 2 * z <= n < |h| && forall i :: 1 <= i <= n ==> 0 <= h[i] < |w|
  {
    if 2 * z < n && w[h[2 * z + 1]] < w[h[2 * z]] then 2 * z + 1 else 2 * z
  }

  /** The sift-down loop on values. */
  ghost function Fallen(h: seq<int>, w: seq<int>, n: nat, tmp: int, z: nat): seq<int>
    requires 1 <= z < |h| && n < |h| && forall i :: 1 <= i <= n ==> 0 <= h[i] < |w|
    requires 2 * z <= n ==> 0 <= tmp < |w|
    decreases n - z
  {
    if 2 * z > n then h[z := tmp]
    else
      var y := Child(h, w, n, z);
      if w[tmp] < w[h[y]] then h[z := tmp] else Fallen(h[z := h[y]], w, n, tmp, y)
  }

  /** With tmp in cell z, only z's children may be lighter than their parent; they respect z's parent. */
  ghost predicate Falling(h: seq<int>, w: seq<int>, n: nat, z: nat) {
    && HeapShape(h, w, n) && 1 <= z
    && (forall i :: 2 <= i <= n && i / 2 != z ==> w[h[i / 2]] <= w[h[i]])
    && (forall i :: 2 <= i <= n && i / 2 == z && z > 1 ==> w[h[z / 2]] <= w[h[i]])
  }

  lemma {:induction false} FallenOrdered(h: seq<int>, w: seq<int>, n: nat, tmp: int, z: nat)
    requires 1 <= z < |h| && (z == 1 || z <= n) && Falling(h[z := tmp], w, n, z)
    requires forall i :: 1 <= i <= n ==> 0 <= h[i] < |w|
    ensures 2 * z <= n ==> 0 <= tmp < |w|
    ensures HeapOrdered(Fallen(h, w, n, tmp, z), w, n) && |Fallen(h, w, n, tmp, z)| == |h|
    ensures multiset(Fallen(h, w, n, tmp, z)) == multiset(h[z := tmp])
    ensures forall i :: n < i < |h| && i != z ==> Fallen(h, w, n, tmp, z)[i] == h[i]
    ensures z > n ==> Fallen(h, w, n, tmp, z)[z] == tmp
    decreases n - z
  {
    assert 2 * z <= n ==> 0 < h[z := tmp][z] < |w|;
    hide Falling, HeapOrdered;
    if 2 * z > n || w[tmp] < w[h[Child(h, w, n, z)]] {
      FallEnds(h, w, n, tmp, z);
    } else {
      var y := Child(h, w, n, z);
      HoleMoved(h, z, y, tmp);
      FallStep(h, w, n, tmp, z, y);
      FallenOrdered(h[z := h[y]], w, n, tmp, y);
    }
  }

  lemma FallEnds(h: seq<int>, w: seq<int>, n: nat, tmp: int, z: nat)
    requires 1 <= z < |h| && n < |h| && Falling(h[z := tmp], w, n, z) && (forall i :: 1 <= i <= n ==> 0 <= h[i] < |w|)
    requires 2 * z > n || (0 <= tmp < |w| && w[tmp] < w[h[Child(h, w, n, z)]])
    ensures HeapOrdered(h[z := tmp], w, n)
  {
    var v := h[z := tmp];
    forall i | 2 <= i <= n
      ensures w[v[i / 2]] <= w[v[i]]
    {
      if i / 2 == z { assert i == 2 * z || i == 2 * z + 1; }
    }
  }

  lemma FallStep(h: seq<int>, w: seq<int>, n: nat, tmp: int, z: nat, y: nat)
    requires 1 <= z && 2 * z <= n < |h| && Falling(h[z := tmp], w, n, z) && (forall i :: 1 <= i <= n ==> 0 <= h[i] < |w|)
    requires y == Child(h, w, n, z) && 0 <= tmp < |w| && w[tmp] >= w[h[y]]
    ensures Falling(h[z := h[y]][y := tmp], w, n, y)
  {
    var v, v' := h[z := tmp], h[z := h[y]][y := tmp];
    assert v[z] == tmp && (forall i :: 0 <= i < |h| && i != z ==> v[i] == h[i]) && (y / 2 == z);
    forall i | 2 <= i <= n && i / 2 != y
      ensures w[v'[i / 2]] <= w[v'[i]]
    {
      if i / 2 == z { assert i == 2 * z || i == 2 * z + 1; } else { assert w[v[i / 2]] <= w[v[i]]; }
    }
  }

  method PickChild(heap: array<int>, weight: array<int>, nHeap: nat, zz: nat) returns (yy: nat)
    requires 1 <= zz && 2 * zz <= nHeap < heap.Length
    requires forall i :: 1 <= i <= nHeap ==> 0 <= heap[i] < weight.Length
    ensures yy == Child(heap[..], weight[..], nHeap, zz) && zz < yy <= nHeap
  {
    yy := 2 * zz;
    if yy < nHeap && weight[heap[yy + 1]] < weight[heap[yy]] { yy := yy + 1; }
  }

  /** The DOWNHEAP loop. */
  method SiftDown(heap: array<int>, weight: array<int>, nHeap: nat)
    requires heap != weight && nHeap < heap.Length && 1 < heap.Length
    requires forall i :: 1 <= i <= nHeap ==> 0 <= heap[i] < weight.Length
    requires 2 <= nHeap ==> 0 <= heap[1] < weight.Length
    modifies heap
    ensures heap[..] == Fallen(old(heap[..]), weight[..], nHeap, old(heap[1]), 1)
  {
    ghost var w := weight[..];
    var zz := 1;
    var tmp := heap[zz];
    ghost var done := Fallen(heap[..], w, nHeap, tmp, zz);
    while 2 * zz <= nHeap
      invariant 1 <= zz < heap.Length && (2 * zz <= nHeap ==> 0 <= tmp < weight.Length)
      invariant forall i :: 1 <= i <= nHeap ==> 0 <= heap[i] < weight.Length
      invariant Fallen(heap[..], w, nHeap, tmp, zz) == done
      decreases nHeap - zz
    {
      ghost var h := heap[..];
      var yy := PickChild(heap, weight, nHeap, zz);
      if weight[tmp] < weight[heap[yy]] { break; }
      heap[zz] := heap[yy];
      assert heap[..] == h[zz := h[yy]];
      zz := yy;
    }
    assert done == heap[..][zz := tmp];
    heap[zz] := tmp;
    assert heap[..] == done;
  }

  method DownHeap(heap: array<int>, weight: array<int>, nHeap: nat)
    requires heap != weight && nHeap < heap.Length && 1 < heap.Length
    requires Falling(heap[..], weight[..], nHeap, 1)
    modifies heap
    ensures HeapOrdered(heap[..], weight[..], nHeap)
    ensures multiset(heap[..]) == multiset(old(heap[..]))
    ensures forall i :: nHeap < i < heap.Length ==> heap[i] == old(heap[i])
  {
    ghost var h := heap[..];
    assert h[1 := heap[1]] == h;
    FallenOrdered(h, weight[..], nHeap, heap[1], 1);
    hide HeapOrdered, Falling, Fallen;
    SiftDown(heap, weight, nHeap);
  }
}
