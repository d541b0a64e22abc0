/** Undoing the Burrows-Wheeler transform (libc/decompress.c:494-582, libc/bzlib_private.h:444-479, libc/bzlib.c:687-698). */
module InverseBwt {
  import opened Words
  import opened Rotations
  import opened Counting

  /** The last column of the sorted rotation matrix, as generateMTFValues reads it off. */
  function LastColumn(b: seq<Byte>, ptr: seq<int>): (l: seq<Byte>)
    requires Permutation(ptr, |b|)
    ensures |l| == |b| && forall i :: 0 <= i < |b| ==> l[i] == b[Back(|b|, ptr[i], 1)]
  {
    seq(|b|, i requires 0 <= i < |b| => b[Back(|b|, ptr[i], 1)])
  }

  // ---- the stable sort of the last column ----

  /** `p` inverts the slot map: the vector T^(-1) that both decoders walk. */
  ghost predicate InvertsSlots(l: seq<Byte>, p: seq<int>) {
    && |p| == |l|
    && (forall k :: 0 <= k < |l| ==> 0 <= p[k] < |l| && Slot(l, p[k]) == k)
  }

  lemma InverseAt(l: seq<Byte>, p: seq<int>, i: nat)
    requires InvertsSlots(l, p) && i < |l|
    ensures Slot(l, i) < |l| && p[Slot(l, i)] == i
  {
    SlotInBucket(l, i);
    var j := p[Slot(l, i)];
    SlotOrder(l, i, j);
    SlotOrder(l, j, i);
  }

  lemma InverseIsPermutation(l: seq<Byte>, p: seq<int>)
    requires InvertsSlots(l, p)
    ensures Permutation(p, |l|)
  {
    forall i, j | 0 <= i < j < |l|
      ensures p[i] != p[j]
    {
      assert Slot(l, p[i]) == i && Slot(l, p[j]) == j;
    }
  }

  // ---- why the walk spells the block ----

  ghost predicate AscendsUnder(key: seq<int>, p: seq<int>) {
    && Permutation(p, |key|)
    && forall i, j :: 0 <= i < j < |key| ==> key[p[i]] <= key[p[j]]
  }

  /** Two permutations under which the same integers come out ascending list the same values. */
  lemma SortedAgree(key: seq<int>, p: seq<int>, q: seq<int>, k: nat)
    requires AscendsUnder(key, p) && AscendsUnder(key, q) && k < |key|
    ensures 0 <= p[k] < |key| && 0 <= q[k] < |key| && key[p[k]] <= key[q[k]]
  {
    if key[p[k]] > key[q[k]] {
      // Everything up to q[k] is smaller than p[k], so it occurs among the first k entries of p.
      var few, many := p[..k], q[..k + 1];
      forall x | x in Elements(many)
        ensures x in Elements(few)
      {
        var i :| 0 <= i < k + 1 && q[i] == x;
        assert i < k ==> key[q[i]] <= key[q[k]];
        var j := PermutationOnto(p, |key|, x);
        assert j < k;
        assert few[j] == x;
      }
      DistinctCount(many);
      ElementsAtMost(few);
      SubsetCount(Elements(many), Elements(few));
      assert false;
    }
  }

  /** One byte later in a rotation, and one byte earlier in the next one. */
  ghost predicate Precedes(n: nat, x': nat, x: nat) {
    x < n && x' < n && Forward(n, x', 1) == x && Forward(n, x, n - 1) == x'
  }

  lemma PrecedesBack(n: nat, x: nat)
    requires x < n
    ensures Precedes(n, Back(n, x, 1), x) && Precedes(n, x, Forward(n, x, 1))
  {
  }

  /** The order of two rotations: their first byte, then the rest; and the order of the next two: the rest, then that byte. */
  lemma KeyOrders(b: seq<Byte>, x': nat, y': nat, x: nat, y: nat)
    requires Precedes(|b|, x', x) && Precedes(|b|, y', y)
    ensures var n := |b|;
            && (Key(b, x', n) < Key(b, y', n) <==> b[x'] < b[y'] || (b[x'] == b[y'] && Key(b, x, n - 1) < Key(b, y, n - 1)))
            && (Key(b, x', n) == Key(b, y', n) <==> b[x'] == b[y'] && Key(b, x, n - 1) == Key(b, y, n - 1))
            && (Key(b, x, n) < Key(b, y, n) <==>
                  Key(b, x, n - 1) < Key(b, y, n - 1) || (Key(b, x, n - 1) == Key(b, y, n - 1) && b[x'] < b[y']))
            && (Key(b, x, n) == Key(b, y, n) <==> Key(b, x, n - 1) == Key(b, y, n - 1) && b[x'] == b[y'])
  {
    hide Key, Forward, Back;
    KeyOfOne(b, x');
    KeyOfOne(b, y');
    KeyOrder(b, x', y', 1, |b| - 1);
    KeyOrder(b, x, y, |b| - 1, 1);
  }

  /** Prefixing a byte to two rotations: order by that byte, then by the rotations. */
  lemma EarlierLeq(b: seq<Byte>, x: nat, y: nat)
    requires x < |b| && y < |b|
    requires var x', y' := Back(|b|, x, 1), Back(|b|, y, 1);
             b[x'] < b[y'] || (b[x'] == b[y'] && Key(b, x, |b|) <= Key(b, y, |b|))
    ensures Key(b, Back(|b|, x, 1), |b|) <= Key(b, Back(|b|, y, 1), |b|)
  {
    hide Key, Forward, Back, Precedes;
    PrecedesBack(|b|, x);
    PrecedesBack(|b|, y);
    KeyOrders(b, Back(|b|, y, 1), Back(|b|, x, 1), y, x);
  }

  /** Equal rotations stay equal one byte later. */
  lemma SameNext(b: seq<Byte>, x: nat, y: nat)
    requires x < |b| && y < |b| && Key(b, x, |b|) == Key(b, y, |b|)
    ensures b[x] == b[y] && Key(b, Forward(|b|, x, 1), |b|) == Key(b, Forward(|b|, y, 1), |b|)
  {
    hide Key, Forward, Back, Precedes;
    PrecedesBack(|b|, x);
    PrecedesBack(|b|, y);
    KeyOrders(b, x, y, Forward(|b|, x, 1), Forward(|b|, y, 1));
  }

  /** The row that a column entry leads back to, as a block index: one before its rotation. */
  ghost function Led(b: seq<Byte>, ptr: seq<int>, p: seq<int>): (q: seq<int>)
    requires Permutation(ptr, |b|) && Permutation(p, |b|)
    ensures |q| == |b| && forall k :: 0 <= k < |b| ==> q[k] == Back(|b|, ptr[p[k]], 1)
  {
    seq(|b|, k requires 0 <= k < |b| => Back(|b|, ptr[p[k]], 1))
  }

  ghost function Keys(b: seq<Byte>): (ks: seq<int>)
    ensures |ks| == |b| && forall x :: 0 <= x < |b| ==> ks[x] == Key(b, x, |b|)
  {
    seq(|b|, x requires 0 <= x < |b| => Key(b, x, |b|))
  }

  lemma LedIsPermutation(b: seq<Byte>, ptr: seq<int>, p: seq<int>)
    requires Permutation(ptr, |b|) && Permutation(p, |b|)
    ensures Permutation(Led(b, ptr, p), |b|)
  {
    var q := Led(b, ptr, p);
    forall i, j | 0 <= i < j < |b|
      ensures q[i] != q[j]
    {
      assert p[i] != p[j];
      assert ptr[p[i]] != ptr[p[j]];
    }
  }

  lemma RowsSorted(b: seq<Byte>, ptr: seq<int>, i: nat, j: nat)
    requires SortsRotations(b, ptr) && i < j < |b|
    ensures Key(b, ptr[i], |b|) <= Key(b, ptr[j], |b|)
  {
    KeyIsLex(b, ptr[i], ptr[j]);
  }

  /** Rows taken in slot order, each rotated back one byte, are in rotation order. */
  lemma LedSorted(b: seq<Byte>, ptr: seq<int>, p: seq<int>, i: nat, j: nat)
    requires SortsRotations(b, ptr) && InvertsSlots(LastColumn(b, ptr), p) && Permutation(p, |b|) && i < j < |b|
    ensures Keys(b)[Led(b, ptr, p)[i]] <= Keys(b)[Led(b, ptr, p)[j]]
  {
    var l := LastColumn(b, ptr);
    SlotOrder(l, p[i], p[j]);
    if p[i] < p[j] { RowsSorted(b, ptr, p[i], p[j]); }
    EarlierLeq(b, ptr[p[i]], ptr[p[j]]);
  }

  /**
   * One step of T^(-1): the rotation in row p[k], one byte earlier, is the rotation in row k.
   * Equal rotations (a periodic block) may be listed in any order; the rotations still agree.
   */
  lemma NextRow(b: seq<Byte>, ptr: seq<int>, p: seq<int>, k: nat)
    requires SortsRotations(b, ptr) && InvertsSlots(LastColumn(b, ptr), p) && k < |b|
    ensures 0 <= p[k] < |b| && Key(b, Back(|b|, ptr[p[k]], 1), |b|) == Key(b, ptr[k], |b|)
  {
    InverseIsPermutation(LastColumn(b, ptr), p);
    BothSorted(b, ptr, p);
    SortedAgree(Keys(b), ptr, Led(b, ptr, p), k);
    SortedAgree(Keys(b), Led(b, ptr, p), ptr, k);
  }

  lemma BothSorted(b: seq<Byte>, ptr: seq<int>, p: seq<int>)
    requires SortsRotations(b, ptr) && InvertsSlots(LastColumn(b, ptr), p) && Permutation(p, |b|)
    ensures AscendsUnder(Keys(b), ptr) && AscendsUnder(Keys(b), Led(b, ptr, p))
  {
    LedIsPermutation(b, ptr, p);
    var q, ks := Led(b, ptr, p), Keys(b);
    forall i, j | 0 <= i < j < |b|
      ensures ks[ptr[i]] <= ks[ptr[j]] && ks[q[i]] <= ks[q[j]]
    {
      RowsSorted(b, ptr, i, j);
      LedSorted(b, ptr, p, i, j);
    }
  }

  /** The position reached from k after m steps of the vector. */
  ghost function Walk(p: seq<int>, k: int, m: nat): (r: int)
    requires 0 <= k < |p| && forall i :: 0 <= i < |p| ==> 0 <= p[i] < |p|
    ensures 0 <= r < |p|
  {
    if m == 0 then k else p[Walk(p, k, m - 1)]
  }

  /** After m + 1 fetches from the row of the unrotated block, the decoder stands one past byte m. */
  lemma {:induction false} WalkSpells(b: seq<Byte>, ptr: seq<int>, p: seq<int>, orig: nat, m: nat)
    requires SortsRotations(b, ptr) && InvertsSlots(LastColumn(b, ptr), p)
    requires orig < |b| && ptr[orig] == 0 && m < |b|
    ensures var at := Walk(p, orig, m + 1); Key(b, Back(|b|, ptr[at], 1), |b|) == Key(b, m, |b|)
  {
    hide Key, Back, Forward, SortsRotations, InvertsSlots;
    SortingParts(b, ptr, p);
    var at := Walk(p, orig, m);
    NextRow(b, ptr, p, at);
    if m > 0 {
      WalkSpells(b, ptr, p, orig, m - 1);
      SameNext(b, Back(|b|, ptr[at], 1), m - 1);
      StepOn(|b|, ptr[at], m - 1);
    }
  }

  lemma SortingParts(b: seq<Byte>, ptr: seq<int>, p: seq<int>)
    requires SortsRotations(b, ptr) && InvertsSlots(LastColumn(b, ptr), p)
    ensures Permutation(ptr, |b|) && |p| == |b| && forall i :: 0 <= i < |p| ==> 0 <= p[i] < |p| && 0 <= ptr[i] < |b|
  {
  }

  lemma StepOn(n: nat, x: nat, m: nat)
    requires x < n && m + 1 < n
    ensures Forward(n, Back(n, x, 1), 1) == x && Forward(n, m, 1) == m + 1
  {
  }

  /**
   * The inverse transform: for every sorting of the rotations, walking T^(-1) from origPtr reads the
   * block off the last column, byte after byte.
   */
  lemma InverseTransform(b: seq<Byte>, ptr: seq<int>, p: seq<int>, orig: nat, m: nat)
    requires SortsRotations(b, ptr) && InvertsSlots(LastColumn(b, ptr), p)
    requires orig < |b| && ptr[orig] == 0 && m < |b|
    ensures LastColumn(b, ptr)[Walk(p, orig, m + 1)] == b[m]
  {
    var at := Walk(p, orig, m + 1);
    WalkSpells(b, ptr, p, orig, m);
    SameNext(b, Back(|b|, ptr[at], 1), m);
  }

  // ---- the FAST decoder: low byte of tt is the column, the upper 24 bits the vector ----

  ghost predicate Packed(l: seq<Byte>, p: seq<int>, tt: seq<int>) {
    && |p| == |l| <= |tt|
    && forall k :: 0 <= k < |l| ==> tt[k] == l[k] + 256 * p[k]
  }

  lemma PackedAt(l: seq<Byte>, p: seq<int>, tt: seq<int>, k: nat)
    requires Packed(l, p, tt) && k < |l| && p[k] >= 0
    ensures tt[k] >= 0 && tt[k] % 256 == l[k] && tt[k] / 256 == p[k]
  {
    var t, x, y := tt[k], l[k], p[k];
    assert t == x + 256 * y;
  }

  /** Or-ing i << 8 into a cell whose upper bits are clear. */
  lemma PackedOr(l: seq<Byte>, p: seq<int>, tt: seq<int>, k: nat, i: nat)
    requires Packed(l, p, tt) && k < |l| && p[k] == 0
    ensures tt[k] >= 0 && Packed(l, p[k := i], tt[k := Or(tt[k], i * 256)])
  {
    Pow2Values();
    OrIntoClear(i, l[k], 8);
  }

  /** The vector with the first i column entries entered: p[k] is 0 until entry p[k] fills it. */
  ghost predicate Filling(l: seq<Byte>, p: seq<int>, cftab: seq<int>, i: nat) {
    && |p| == |l| && |cftab| >= 256 && i <= |l|
    && (forall c :: 0 <= c < 256 ==> cftab[c] == Start(l, c) + Count(l[..i], c))
    && (forall j :: 0 <= j < i ==> Slot(l, j) < |l| && p[Slot(l, j)] == j)
    && (forall k :: 0 <= k < |l| ==> p[k] == 0 || (0 < p[k] < i && Slot(l, p[k]) == k))
  }

  lemma FillOne(l: seq<Byte>, p: seq<int>, cftab: seq<int>, i: nat)
    requires Filling(l, p, cftab, i) && i < |l|
    ensures cftab[l[i]] == Slot(l, i) < |l| && p[Slot(l, i)] == 0
    ensures Filling(l, p[Slot(l, i) := i], cftab[l[i] := cftab[l[i]] + 1], i + 1)
  {
    var k := Slot(l, i);
    SlotInBucket(l, i);
    forall j | 0 <= j < i
      ensures Slot(l, j) != k
    {
      SlotOrder(l, j, i);
      SlotOrder(l, i, j);
    }
    CountNext(l, i);
  }

  lemma {:induction false} Filled(l: seq<Byte>, p: seq<int>, cftab: seq<int>)
    requires Filling(l, p, cftab, |l|)
    ensures InvertsSlots(l, p)
  {
    var slots := seq(|l|, i requires 0 <= i < |l| => Slot(l, i));
    assert Permutation(slots, |l|) by {
      forall i, j | 0 <= i < j < |l|
        ensures slots[i] != slots[j]
      {
        SlotOrder(l, i, j);
        SlotOrder(l, j, i);
      }
    }
    forall k | 0 <= k < |l|
      ensures 0 <= p[k] < |l| && Slot(l, p[k]) == k
    {
      var i := PermutationOnto(slots, |l|, k);
      assert p[Slot(l, i)] == i;
    }
  }

  /** Compute T^(-1) into the upper bits of tt. */
  method BuildFast(tt: array<int>, cftab: array<int>, nblock: int, ghost l: seq<Byte>) returns (ghost p: seq<int>)
    requires tt != cftab && nblock == |l| <= tt.Length && nblock <= 0x100_0000 && cftab.Length == 257
    requires forall k :: 0 <= k < nblock ==> tt[k] == l[k]
    requires forall c :: 0 <= c < 256 ==> cftab[c] == Start(l, c)
    modifies tt, cftab
    ensures InvertsSlots(l, p) && Packed(l, p, tt[..])
  {
    hide Filling, Packed, Or, Slot, Start, InvertsSlots, Count;
    p := seq(nblock, _ => 0);
    FillStart(l, p, cftab[..], tt[..]);
    for i := 0 to nblock
      invariant Filling(l, p, cftab[..], i) && Packed(l, p, tt[..])
      invariant |p| == nblock && forall k :: 0 <= k < nblock ==> p[k] >= 0
    {
      ghost var cf, t := cftab[..], tt[..];
      FillOne(l, p, cf, i);
      PackedAt(l, p, t, i);
      PackedOr(l, p, t, Slot(l, i), i);
      var uc := tt[i] % 256;
      var k := cftab[uc];
      tt[k] := Or(tt[k], i * 256);
      cftab[uc] := cftab[uc] + 1;
      p := p[k := i];
      assert cftab[..] == cf[uc := cf[uc] + 1] && tt[..] == t[k := Or(t[k], i * 256)];
    }
    Filled(l, p, cftab[..]);
  }

  lemma FillStart(l: seq<Byte>, p: seq<int>, cftab: seq<int>, tt: seq<int>)
    requires |p| == |l| <= |tt| && |cftab| == 257 && (forall k :: 0 <= k < |p| ==> p[k] == 0 && tt[k] == l[k])
    requires forall c :: 0 <= c < 256 ==> cftab[c] == Start(l, c)
    ensures Filling(l, p, cftab, 0) && Packed(l, p, tt)
  {
  }

  /** BZ_GET_FAST, for a position inside the block. */
  method FetchFast(tt: array<int>, tPos: int, ghost l: seq<Byte>, ghost p: seq<int>)
    returns (c: Byte, next: int)
    requires 0 <= tPos < |l| && Packed(l, p, tt[..]) && InvertsSlots(l, p)
    ensures c == l[tPos] && next == p[tPos]
  {
    PackedAt(l, p, tt[..], tPos);
    var t := tt[tPos];
    c, next := t % 256, t / 256;
  }
}
