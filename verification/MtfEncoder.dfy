/**
 * generateMTFValues in its shared memory (libc/compress.c:104-231).
 *
 * arr1 holds the sorted order as 32-bit cells and receives the 16-bit symbols from its start, in the
 * same storage. It is modelled as its 16-bit halves: cell i of ptr is halves 2i and 2i+1, symbol w is
 * half w.
 */
module MtfEncoder {
  import opened Words
  import opened Rotations
  import opened InverseBwt
  import opened MoveToFront
  import opened MtfCoding

  ghost function Ptr(halves: seq<int>, n: nat): (p: seq<int>)
    requires 2 * n <= |halves|
    ensures |p| == n && forall i :: 0 <= i < n ==> p[i] == halves[2 * i] + 65536 * halves[2 * i + 1]
  {
    seq(n, i requires 0 <= i < n => halves[2 * i] + 65536 * halves[2 * i + 1])
  }

  // ---- the map of bytes in use ----

  /** The bytes below `upto` that are in use, ascending. */
  function Used(inUse: seq<bool>, upto: nat): (u: seq<int>)
    requires upto <= |inUse|
    ensures |u| <= upto
    ensures forall k :: 0 <= k < |u| ==> 0 <= u[k] < upto && inUse[u[k]]
  {
    if upto == 0 then []
    else Used(inUse, upto - 1) + (if inUse[upto - 1] then [upto - 1] else [])
  }

  /** makeMaps_e: number the bytes in use. */
  method MakeMapsE(inUse: array<bool>, unseqToSeq: array<int>) returns (nInUse: nat)
    requires inUse.Length == 256 && unseqToSeq.Length == 256
    modifies unseqToSeq
    ensures nInUse == |Used(inUse[..], 256)|
    ensures forall c :: 0 <= c < 256 && inUse[c] ==> 0 <= unseqToSeq[c] < nInUse && Used(inUse[..], 256)[unseqToSeq[c]] == c
  {
    ghost var used := inUse[..];
    nInUse := 0;
    for i := 0 to 256
      invariant nInUse == |Used(used, i)|
      invariant forall c :: 0 <= c < i && used[c] ==> 0 <= unseqToSeq[c] < nInUse && Used(used, i)[unseqToSeq[c]] == c
    {
      if inUse[i] {
        unseqToSeq[i] := nInUse;
        nInUse := nInUse + 1;
      }
    }
  }

  /** makeMaps_d: list the bytes in use. */
  method MakeMapsD(inUse: array<bool>, seqToUnseq: array<int>) returns (nInUse: nat)
    requires inUse.Length == 256 && seqToUnseq.Length == 256
    modifies seqToUnseq
    ensures nInUse <= 256 && seqToUnseq[..nInUse] == Used(inUse[..], 256)
  {
    ghost var used := inUse[..];
    nInUse := 0;
    for i := 0 to 256
      invariant nInUse <= i && seqToUnseq[..nInUse] == Used(used, i)
    {
      if inUse[i] {
        seqToUnseq[nInUse] := i;
        nInUse := nInUse + 1;
      }
    }
  }

  // ---- the symbols ----

  lemma RunDigitsNext(z: nat)
    ensures RunDigits(z + 1) == [z % 2] + RunDigits(z / 2)
  {
  }

  lemma RunDigitsNone()
    ensures RunDigits(0) == []
  {
  }

  method EmitRun(arr1: array<int>, wr0: nat, z: nat) returns (wr: nat)
    requires wr0 + |RunDigits(z)| <= arr1.Length
    modifies arr1
    ensures wr == wr0 + |RunDigits(z)|
    ensures arr1[..] == old(arr1[..wr0]) + RunDigits(z) + old(arr1[wr..])
  {
    hide RunDigits;
    RunDigitsNone();
    wr := wr0;
    if z > 0 {
      var zPend: nat := z - 1;
      while true
        invariant wr0 <= wr && wr + |RunDigits(zPend + 1)| == wr0 + |RunDigits(z)|
        invariant arr1[..wr] + RunDigits(zPend + 1) == old(arr1[..wr0]) + RunDigits(z)
        invariant forall k :: wr <= k < arr1.Length ==> arr1[k] == old(arr1[k])
        decreases zPend
      {
        RunDigitsNext(zPend);
        ghost var head := arr1[..wr];
        arr1[wr] := zPend % 2;
        wr := wr + 1;
        assert arr1[..wr] == head + [zPend % 2];
        Regroup(head, [zPend % 2], RunDigits(zPend / 2));
        if zPend < 2 { break; }
        zPend := (zPend - 2) / 2;
      }
      assert arr1[..wr] == old(arr1[..wr0]) + RunDigits(z);
      assert arr1[..] == arr1[..wr] + arr1[wr..];
    }
  }

  /**
   * Midway: symbols written so far, followed by those still owed for the rest of the column, are the
   * symbols of the whole column. The write position never passes the column position, so every cell
   * of ptr not yet read is intact although both share the same storage.
   */
  ghost predicate Encoding(was: seq<int>, now: seq<int>, list: seq<int>, col: seq<int>, i: nat, z: nat, wr: nat, n: nat, target: seq<int>) {
    && |now| == |was| && 2 * |col| <= |was| && i <= |col| && 0 < |list| == n
    && wr + z <= i
    && (forall k :: 2 * i <= k < |was| ==> now[k] == was[k])
    && (forall x :: 0 <= x < n ==> x in list) && (forall k :: 0 <= k < |col| ==> 0 <= col[k] < n)
    && now[..wr] + Symbols(list, col[i..], z, n + 1) == target
  }

  /** A front hit only lengthens the pending run. */
  lemma EncodeHit(was: seq<int>, now: seq<int>, list: seq<int>, col: seq<int>, i: nat, z: nat, wr: nat, n: nat, target: seq<int>)
    requires Encoding(was, now, list, col, i, z, wr, n, target) && i < |col| && list[0] == col[i]
    ensures Encoding(was, now, list, col, i + 1, z + 1, wr, n, target)
  {
    assert col[i..][0] == col[i] && col[i..][1..] == col[i + 1..];
  }

  /** Any other entry flushes the run and writes its list position. */
  lemma EncodeMove(was: seq<int>, now: seq<int>, list: seq<int>, col: seq<int>, i: nat, z: nat, wr: nat, n: nat, target: seq<int>, now': seq<int>)
    requires Encoding(was, now, list, col, i, z, wr, n, target) && i < |col| && list[0] != col[i]
    requires var wr' := wr + |RunDigits(z)|;
             && wr' + 1 <= |now|
             && now' == now[..wr] + RunDigits(z) + [IndexOf(list, col[i]) + 1] + now[wr' + 1..]
    ensures Encoding(was, now', MovedToFront(list, IndexOf(list, col[i])), col, i + 1, 0, wr + |RunDigits(z)| + 1, n, target)
  {
    hide IndexOf, RunDigits, MovedToFront, Symbols;
    var j := IndexOf(list, col[i]);
    MovedKeeps(list, j);
    RunDigitsShort(z);
    SymbolsMove(list, col, i, z, n);
    Appended(now, wr, RunDigits(z), j + 1, now', Symbols(MovedToFront(list, j), col[i + 1..], 0, n + 1));
  }

  lemma SymbolsMove(list: seq<int>, col: seq<int>, i: nat, z: nat, n: nat)
    requires list != [] && (forall x :: x in col ==> x in list) && i < |col| && list[0] != col[i]
    ensures var j := IndexOf(list, col[i]);
            && (forall x :: x in col[i + 1..] ==> x in MovedToFront(list, j))
            && Symbols(list, col[i..], z, n + 1) == RunDigits(z) + [j + 1] + Symbols(MovedToFront(list, j), col[i + 1..], 0, n + 1)
  {
    hide IndexOf, RunDigits, MovedToFront;
    MovedKeeps(list, IndexOf(list, col[i]));
    assert col[i..][0] == col[i] && col[i..][1..] == col[i + 1..];
  }

  lemma Appended(now: seq<int>, wr: nat, run: seq<int>, sym: int, now': seq<int>, rest: seq<int>)
    requires wr + |run| + 1 <= |now| && now' == now[..wr] + run + [sym] + now[wr + |run| + 1..]
    ensures now'[..wr + |run| + 1] + rest == now[..wr] + (run + [sym] + rest)
    ensures |now'| == |now| && forall k :: wr + |run| + 1 <= k < |now| ==> now'[k] == now[k]
  {
    assert now'[..wr + |run| + 1] == now[..wr] + run + [sym];
  }

  /** The symbols of a column over the fresh list 0, 1, ..., n-1. */
  ghost function ColumnSymbols(col: seq<int>, n: nat): seq<int>
    requires n > 0 && forall k :: 0 <= k < |col| ==> 0 <= col[k] < n
  {
    IotaHas(n);
    Symbols(Iota(n), col, 0, n + 1)
  }

  lemma IotaHas(n: nat)
    ensures forall x :: 0 <= x < n ==> x in Iota(n)
  {
    forall x | 0 <= x < n
      ensures x in Iota(n)
    {
      assert Iota(n)[x] == x;
    }
  }

  lemma EncodeStart(was: seq<int>, col: seq<int>, n: nat)
    requires n > 0 && 2 * |col| <= |was| && forall k :: 0 <= k < |col| ==> 0 <= col[k] < n
    ensures Encoding(was, was, Iota(n), col, 0, 0, 0, n, ColumnSymbols(col, n))
  {
    IotaHas(n);
    assert col[0..] == col;
  }

  lemma EncodeEnd(was: seq<int>, now: seq<int>, list: seq<int>, col: seq<int>, z: nat, wr: nat, n: nat, target: seq<int>)
    requires Encoding(was, now, list, col, |col|, z, wr, n, target)
    ensures now[..wr] + RunDigits(z) + [n + 1] == target && wr + |RunDigits(z)| <= |col|
  {
    RunDigitsShort(z);
    assert now[..wr] + (RunDigits(z) + [n + 1]) == now[..wr] + RunDigits(z) + [n + 1];
  }

  ghost function Sequenced(l: seq<Byte>, map': seq<int>): (col: seq<int>)
    requires |map'| == 256
    ensures |col| == |l| && forall i :: 0 <= i < |l| ==> col[i] == map'[l[i]]
  {
    seq(|l|, i requires 0 <= i < |l| => map'[l[i]])
  }

  /** Write a pending run and one further symbol. */
  method EmitRunAnd(arr1: array<int>, wr0: nat, z: nat, sym: int) returns (wr: nat)
    requires wr0 + |RunDigits(z)| < arr1.Length
    modifies arr1
    ensures wr == wr0 + |RunDigits(z)| + 1
    ensures arr1[..] == old(arr1[..wr0]) + RunDigits(z) + [sym] + old(arr1[wr..])
  {
    wr := EmitRun(arr1, wr0, z);
    ghost var now := arr1[..];
    arr1[wr] := sym;
    assert arr1[..] == now[wr := sym];
    wr := wr + 1;
  }

  lemma EncodingParts(was: seq<int>, now: seq<int>, list: seq<int>, col: seq<int>, i: nat, z: nat, wr: nat, n: nat, target: seq<int>)
    requires Encoding(was, now, list, col, i, z, wr, n, target) && i < |col|
    ensures |now| == |was| && 2 * |col| <= |was| && 0 < |list| == n && wr + z <= i && 0 <= col[i] < n && col[i] in list
  {
  }

  /** An entry that is not in front: write the run, move the entry to the front, write its position. */
  method EncodeOther(arr1: array<int>, yy: array<int>, wr0: nat, z: nat, ll: int, n: nat,
                     ghost was: seq<int>, ghost col: seq<int>, ghost i: nat, ghost target: seq<int>)
    returns (wr: nat)
    requires arr1 != yy && n <= yy.Length && i < |col| && Encoding(was, arr1[..], yy[..n], col, i, z, wr0, n, target)
    requires ll == col[i] && yy[0] != ll
    modifies arr1, yy
    ensures wr <= i + 1 && Encoding(was, arr1[..], yy[..n], col, i + 1, 0, wr, n, target)
  {
    hide Encoding, RunDigits, MovedToFront, IndexOf;
    EncodingParts(was, arr1[..], yy[..n], col, i, z, wr0, n, target);
    ghost var now, list, tail := arr1[..], yy[..n], yy[n..];
    assert yy[..] == list + tail;
    RunDigitsShort(z);
    var k := RotateToFront(yy, ll, n);
    MovedPrefix(list, tail, k);
    assert yy[..n] == MovedToFront(list, k);
    IndexOfIs(list, ll, k);
    wr := EmitRunAnd(arr1, wr0, z, k + 1);
    EncodeMove(was, now, list, col, i, z, wr0, n, target, arr1[..]);
  }

  lemma IndexOfIs(list: seq<int>, x: int, k: nat)
    requires k < |list| && list[k] == x && x !in list[..k]
    ensures IndexOf(list, x) == k
  {
    var j := IndexOf(list, x);
  }

  /** generateMTFValues: the 16-bit symbols of the last column end up in the first halves of arr1. */
  method GenerateMTFValues(arr1: array<int>, block: array<Byte>, unseqToSeq: array<int>, nblock: nat, nInUse: nat)
    returns (nMTF: nat)
    requires arr1 != unseqToSeq && 0 < nblock <= block.Length && 2 * nblock <= arr1.Length && unseqToSeq.Length == 256
    requires Permutation(Ptr(arr1[..], nblock), nblock)
    requires 0 < nInUse <= 256 && forall i :: 0 <= i < nblock ==> 0 <= unseqToSeq[block[i]] < nInUse
    modifies arr1
    ensures nMTF <= nblock + 1 <= arr1.Length
    ensures var l := LastColumn(block[..nblock], old(Ptr(arr1[..], nblock)));
            arr1[..nMTF] == ColumnSymbols(Sequenced(l, unseqToSeq[..]), nInUse)
  {
    hide Encoding, ColumnSymbols, Permutation, Symbols;
    ghost var was, ptr, b := arr1[..], Ptr(arr1[..], nblock), block[..nblock];
    ghost var l := LastColumn(b, ptr);
    ghost var col := Sequenced(l, unseqToSeq[..]);
    ColumnInRange(b, ptr, unseqToSeq[..], nInUse);
    ghost var target := ColumnSymbols(col, nInUse);
    var yy := new int[256](i => i);
    var wr: nat, zPend: nat := 0, 0;
    assert yy[..nInUse] == Iota(nInUse);
    EncodeStart(was, col, nInUse);
    for i := 0 to nblock
      invariant wr + zPend <= i && Encoding(was, arr1[..], yy[..nInUse], col, i, zPend, wr, nInUse, target)
    {
      ghost var now := arr1[..];
      UnreadCell(was, now, yy[..nInUse], col, i, zPend, wr, nInUse, target);
      ColumnEntry(b, ptr, unseqToSeq[..], i);
      var j := arr1[2 * i] + 65536 * arr1[2 * i + 1] - 1;
      if j < 0 { j := j + nblock; }
      assert j == Back(nblock, ptr[i], 1);
      var ll := unseqToSeq[block[j]];
      assert b[j] == block[j];
      if yy[0] == ll {
        EncodeHit(was, now, yy[..nInUse], col, i, zPend, wr, nInUse, target);
        zPend := zPend + 1;
      } else {
        wr := EncodeOther(arr1, yy, wr, zPend, ll, nInUse, was, col, i, target);
        zPend := 0;
      }
    }
    EncodeEnd(was, arr1[..], yy[..nInUse], col, zPend, wr, nInUse, target);
    nMTF := EmitRunAnd(arr1, wr, zPend, nInUse + 1);
  }

  lemma ColumnInRange(b: seq<Byte>, ptr: seq<int>, map': seq<int>, n: nat)
    requires Permutation(ptr, |b|) && |map'| == 256 && forall i :: 0 <= i < |b| ==> 0 <= map'[b[i]] < n
    ensures forall k :: 0 <= k < |b| ==> 0 <= Sequenced(LastColumn(b, ptr), map')[k] < n
  {
  }

  lemma ColumnEntry(b: seq<Byte>, ptr: seq<int>, map': seq<int>, i: nat)
    requires Permutation(ptr, |b|) && |map'| == 256 && i < |b|
    ensures 0 <= ptr[i] < |b| && Sequenced(LastColumn(b, ptr), map')[i] == map'[b[Back(|b|, ptr[i], 1)]]
  {
  }

  /** The pointer of the entry at hand has not been overwritten. */
  lemma UnreadCell(was: seq<int>, now: seq<int>, list: seq<int>, col: seq<int>, i: nat, z: nat, wr: nat, n: nat, target: seq<int>)
    requires Encoding(was, now, list, col, i, z, wr, n, target) && i < |col|
    ensures |now| == |was| && 2 * i + 1 < |was| && now[2 * i] == was[2 * i] && now[2 * i + 1] == was[2 * i + 1] && |list| > 0
  {
  }
}
