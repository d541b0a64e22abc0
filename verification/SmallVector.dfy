/** The SMALL decoder's vector of 20-bit cells, and its in-place reversal (libc/bzlib_private.h:458-479, libc/decompress.c:530-553). */
module SmallVector {
  import opened Words
  import opened Counting
  import opened InverseBwt

  const CELL_LIMIT := 0x10_0000

  // SET_LL4 / GET_LL4: the upper four bits of two neighbouring cells share a byte.

  function PutNibble(x: Byte, even: bool, n: nat): nat {
    if even then Or(x / 16 * 16, n) else Or(x % 16, n * 16)
  }

  function GetNibble(x: Byte, even: bool): nat {
    if even then x % 16 else x / 16 % 16
  }

  lemma NibbleRoundTrip(x: Byte, even: bool, n: nat)
    requires n < 16
    ensures PutNibble(x, even, n) < 256
    ensures GetNibble(PutNibble(x, even, n), even) == n
    ensures GetNibble(PutNibble(x, even, n), !even) == GetNibble(x, !even)
  {
    assert Pow2(4) == 16;
    var h, l := x / 16, x % 16;
    if even {
      OrIntoClear(h, n, 4);
      HalfBytes(h, n, PutNibble(x, even, n));
    } else {
      OrIntoClear(n, l, 4);
      HalfBytes(n, l, PutNibble(x, even, n));
    }
  }

  lemma HalfBytes(h: int, l: int, v: int)
    requires 0 <= h < 16 && 0 <= l < 16 && v == h * 16 + l
    ensures 0 <= v < 256 && v % 16 == l && v / 16 % 16 == h
  {
  }

  class LL {
    const ll16: array<int>
    const ll4: array<Byte>
    ghost var used: nat

    ghost predicate Shape() {
      ll4.Length * 2 >= ll16.Length
    }

    ghost predicate Valid()
      reads this, ll16
    {
      Shape() && used <= ll16.Length && forall i :: 0 <= i < used ==> 0 <= ll16[i] < 65536
    }

    /** GET_LL */
    function Get(i: nat): (n: nat)
      reads this, ll16, ll4
      requires Valid() && i < used
    {
      Or(ll16[i], GetNibble(ll4[i / 2], i % 2 == 0) * 65536)
    }

    ghost function Cells(): (s: seq<int>)
      reads this, ll16, ll4
      requires Valid()
      ensures |s| == used && forall i :: 0 <= i < |s| ==> s[i] == Get(i)
    {
      seq(used, i requires 0 <= i < used && Valid() reads this, ll16, ll4 => Get(i))
    }

    constructor (n: nat)
      ensures Valid() && used == 0 && ll16.Length == n && fresh(ll16) && fresh(ll4)
    {
      ll16 := new int[n](_ => 0);
      ll4 := new Byte[(n + 1) / 2](_ => 0);
      used := 0;
    }

    lemma GetSplits(i: nat)
      requires Valid() && i < used
      ensures Get(i) == ll16[i] + 65536 * GetNibble(ll4[i / 2], i % 2 == 0)
    {
      Pow2Values();
      OrIntoClear(GetNibble(ll4[i / 2], i % 2 == 0), ll16[i], 16);
    }

    /** SET_LL: the cell takes the value and every other cell keeps its own. */
    method Set(i: nat, n: nat)
      requires Valid() && i < used && n < CELL_LIMIT
      modifies ll16, ll4
      ensures Valid() && Cells() == old(Cells())[i := n]
      ensures forall j :: 0 <= j < ll16.Length && j != i ==> ll16[j] == old(ll16[j])
    {
      ghost var was := Cells();
      forall j | 0 <= j < used { GetSplits(j); }
      NibbleRoundTrip(ll4[i / 2], i % 2 == 0, n / 65536);
      ll16[i] := n % 65536;
      ll4[i / 2] := PutNibble(ll4[i / 2], i % 2 == 0, n / 65536);
      forall j | 0 <= j < used
        ensures Get(j) == was[i := n][j]
      {
        GetSplits(j);
      }
    }
  }

  // ---- T, and its reversal along the cycle of origPtr ----

  /** Replace the column in ll16 by the vector T: cell i gets the slot of column entry i. */
  method BuildSmall(ll: LL, cftab: array<int>, nblock: int, ghost l: seq<Byte>)
    requires ll.Shape() && nblock == |l| <= ll.ll16.Length && nblock <= CELL_LIMIT && cftab.Length == 257
    requires cftab != ll.ll16
    requires forall k :: 0 <= k < nblock ==> ll.ll16[k] == l[k]
    requires forall c :: 0 <= c < 256 ==> cftab[c] == Start(l, c)
    modifies ll`used, ll.ll16, ll.ll4
    ensures ll.Valid() && ll.used == nblock && forall i :: 0 <= i < nblock ==> ll.Cells()[i] == Slot(l, i)
  {
    hide Start, Count, LL.Get, Or, GetNibble;
    CountStart(l);
    ll.used := nblock;
    var cftabCopy := new int[257];
    for c := 0 to 257
      modifies cftabCopy
      invariant forall d :: 0 <= d < c ==> cftabCopy[d] == cftab[d]
    {
      cftabCopy[c] := cftab[c];
    }
    for i := 0 to nblock
      invariant ll.Valid() && ll.used == nblock
      invariant forall k :: i <= k < nblock ==> ll.ll16[k] == l[k]
      invariant forall c :: 0 <= c < 256 ==> cftabCopy[c] == Start(l, c) + Count(l[..i], c)
      invariant forall k :: 0 <= k < i ==> ll.Cells()[k] == Slot(l, k)
    {
      var uc := ll.ll16[i] % 256;
      assert uc == l[i];
      SlotInBucket(l, i);
      CountNext(l, i);
      ll.Set(i, cftabCopy[uc]);
      cftabCopy[uc] := cftabCopy[uc] + 1;
    }
  }

  lemma CountStart(l: seq<Byte>)
    ensures forall c: int :: Count(l[..0], c) == 0
  {
  }

  ghost predicate IsVector(t: seq<int>) {
    forall i :: 0 <= i < |t| ==> 0 <= t[i] < |t|
  }

  ghost predicate Inverse(t: seq<int>, p: seq<int>) {
    && |t| == |p| && IsVector(t) && IsVector(p)
    && forall i :: 0 <= i < |t| ==> p[t[i]] == i
  }

  /**
   * Mid-reversal: `path` is the stretch of the cycle walked so far, starting at origPtr. Its cells
   * after the first point backwards, and all other cells still hold t.
   */
  ghost predicate Reversing(t: seq<int>, cells: seq<int>, path: seq<int>) {
    && |cells| == |t| && |path| > 0 && IsVector(t)
    && (forall q :: 0 <= q < |path| ==> 0 <= path[q] < |t|)
    && (forall q :: 0 < q < |path| ==> path[q] == t[path[q - 1]])
    && Distinct(path[1..])
    && (forall q :: 0 < q < |path| ==> cells[path[q]] == path[q - 1])
    && (forall x :: 0 <= x < |t| && x !in path[1..] ==> cells[x] == t[x])
  }

  lemma ReverseStep(t: seq<int>, p: seq<int>, cells: seq<int>, path: seq<int>)
    requires Inverse(t, p) && Reversing(t, cells, path)
    requires |path| > 1 ==> path[|path| - 1] != path[0]
    ensures var i := path[|path| - 1];
            var j := t[i];
            j !in path[1..] && cells[j] == t[j] && Reversing(t, cells[j := i], path + [j])
  {
    var i := path[|path| - 1];
    var j := t[i];
    NotYet(t, p, cells, path);
    Extended(t, cells, path, i, j);
  }

  /** The next cell has one predecessor, the last cell of the walk, which is not an earlier one. */
  lemma NotYet(t: seq<int>, p: seq<int>, cells: seq<int>, path: seq<int>)
    requires Inverse(t, p) && Reversing(t, cells, path)
    requires |path| > 1 ==> path[|path| - 1] != path[0]
    ensures t[path[|path| - 1]] !in path[1..]
  {
    var i := path[|path| - 1];
    var j := t[i];
    forall q | 0 < q < |path|
      ensures path[q] != j
    {
      assert q > 1 ==> path[q - 1] == path[1..][q - 2] && i == path[1..][|path| - 2];
      assert path[q - 1] != i && p[t[path[q - 1]]] == path[q - 1] && p[t[i]] == i;
    }
  }

  lemma Extended(t: seq<int>, cells: seq<int>, path: seq<int>, i: int, j: int)
    requires Reversing(t, cells, path) && i == path[|path| - 1] && j == t[i] && j !in path[1..]
    ensures cells[j] == t[j] && Reversing(t, cells[j := i], path + [j])
  {
    var path' := path + [j];
    assert path'[1..] == path[1..] + [j];
    forall q | 0 < q < |path| ensures path[q] != j { assert path[1..][q - 1] == path[q]; }
  }

  /** When the walk is back at its start, every cell on the cycle holds the inverse vector. */
  lemma {:induction false} ReversedCycle(t: seq<int>, p: seq<int>, cells: seq<int>, path: seq<int>, m: nat)
    requires Inverse(t, p) && Reversing(t, cells, path) && |path| > 1 && path[|path| - 1] == path[0]
    ensures var x := Walk(p, path[0], m);
            (exists q :: 0 < q < |path| && path[q] == x) && cells[x] == p[x]
  {
    var x := Walk(p, path[0], m);
    if m == 0 {
      assert path[|path| - 1] == x;
    } else {
      ReversedCycle(t, p, cells, path, m - 1);
      var q :| 0 < q < |path| && path[q] == Walk(p, path[0], m - 1);
      assert p[t[path[q - 1]]] == path[q - 1];
      assert x == path[q - 1];
      if q == 1 { assert path[|path| - 1] == x; }
    }
    var r :| 0 < r < |path| && path[r] == x;
    assert p[t[path[r - 1]]] == path[r - 1];
  }

  /** Compute T^(-1) on the cycle of origPtr by pointer reversal. */
  method ReverseCycle(ll: LL, origPtr: nat, nblock: nat, ghost p: seq<int>)
    requires ll.Valid() && origPtr < nblock <= ll.used && nblock <= CELL_LIMIT
    requires Inverse(ll.Cells()[..nblock], p)
    modifies ll.ll16, ll.ll4
    ensures ll.Valid() && forall m: nat :: ll.Cells()[Walk(p, origPtr, m)] == p[Walk(p, origPtr, m)]
  {
    ghost var t := ll.Cells()[..nblock];
    ghost var path := [origPtr];
    var i := origPtr;
    var j := ll.Get(i);
    while true
      invariant ll.Valid() && Reversing(t, ll.Cells()[..nblock], path)
      invariant path[0] == origPtr && i == path[|path| - 1] && j == t[i]
      invariant |path| > 1 ==> i != origPtr
      decreases nblock - |path|
    {
      ghost var cells := ll.Cells()[..nblock];
      ReverseStep(t, p, cells, path);
      var tmp := ll.Get(j);
      ll.Set(j, i);
      path := path + [j];
      assert ll.Cells()[..nblock] == cells[j := i];
      i := j;
      j := tmp;
      PathFits(t, ll.Cells()[..nblock], path);
      if i == origPtr { break; }
    }
    forall m: nat
      ensures ll.Cells()[Walk(p, origPtr, m)] == p[Walk(p, origPtr, m)]
    {
      ReversedCycle(t, p, ll.Cells()[..nblock], path, m);
    }
  }

  lemma PathFits(t: seq<int>, cells: seq<int>, path: seq<int>)
    requires Reversing(t, cells, path)
    ensures |path| <= |t| + 1
  {
    var tail := path[1..];
    DistinctCount(tail);
    BelowCount(|t|);
    forall x | x in Elements(tail)
      ensures x in Below(|t|)
    {
      var q :| 0 <= q < |tail| && tail[q] == x;
      assert path[q + 1] == x;
    }
    SubsetCount(Elements(tail), Below(|t|));
  }

  /** BZ2_indexIntoF: binary search for the bucket of a sorted position. */
  method IndexIntoF(indx: int, cftab: array<int>) returns (nb: int)
    requires cftab.Length == 257 && cftab[0] <= indx < cftab[256]
    ensures 0 <= nb < 256 && cftab[nb] <= indx < cftab[nb + 1]
  {
    nb := 0;
    var na := 256;
    while na - nb != 1
      invariant 0 <= nb < na <= 256 && cftab[nb] <= indx < cftab[na]
      decreases na - nb
    {
      var mid := (nb + na) / 2;
      if indx >= cftab[mid] { nb := mid; } else { na := mid; }
    }
  }

  /**
   * BZ_GET_SMALL: from the position FAST stood at one fetch earlier, it yields the byte FAST yields
   * and moves to the position FAST read. So the two decoders agree on every column and every origPtr.
   */
  method FetchSmall(ll: LL, cftab: array<int>, tPos: int, ghost l: seq<Byte>, ghost p: seq<int>, ghost orig: nat, ghost m: nat)
    returns (c: Byte, next: int)
    requires ll.Valid() && |l| <= ll.used && InvertsSlots(l, p) && orig < |l|
    requires forall k: nat :: ll.Cells()[Walk(p, orig, k)] == p[Walk(p, orig, k)]
    requires cftab.Length == 257 && forall c :: 0 <= c <= 256 ==> cftab[c] == Start(l, c)
    requires tPos == Walk(p, orig, m)
    ensures next == Walk(p, orig, m + 1) && c == l[next]
  {
    StartTotal(l);
    var nb := IndexIntoF(tPos, cftab);
    c, next := nb, ll.Get(tPos);
    assert ll.Cells()[Walk(p, orig, m)] == next;
    SlotInBucket(l, next);
    var d: int := l[next];
    if d < nb { BucketsDisjoint(l, d, nb, tPos, tPos); }
    if nb < d { BucketsDisjoint(l, nb, d, tPos, tPos); }
  }
}
