/** Building and using the tables of a canonical code (libc/huffman.c:151-204, libc/decompress.c:74-102). */
module CodeTables {
  import opened Words
  import opened Counting
  import opened BitStream
  import opened CanonicalCode

  ghost predicate Spans(lens: seq<Byte>, minLen: nat, maxLen: nat) {
    && 1 <= minLen <= maxLen <= MAX_LEN && 0 < |lens| <= MAX_ALPHA
    && (forall i :: 0 <= i < |lens| ==> minLen <= lens[i] <= maxLen)
    && exists i :: 0 <= i < |lens| && lens[i] == minLen
  }

  /** The loop both ends run over a table to find its shortest and longest code. */
  method Extremes(length: array<Byte>, alphaSize: nat) returns (minLen: nat, maxLen: nat)
    requires 0 < alphaSize <= length.Length && Coded(length[..alphaSize])
    ensures Spans(length[..alphaSize], minLen, maxLen) && minLen == Shortest(length[..alphaSize])
  {
    ghost var lens := length[..alphaSize];
    minLen, maxLen := 32, 0;
    for i := 0 to alphaSize
      invariant forall k :: 0 <= k < i ==> minLen <= lens[k] <= maxLen <= MAX_LEN
      invariant i > 0 ==> exists k :: 0 <= k < i && lens[k] == minLen
      invariant i == 0 ==> minLen == 32 && maxLen == 0
    {
      assert lens[i] == length[i];
      if length[i] > maxLen { maxLen := length[i]; }
      if length[i] < minLen { minLen := length[i]; }
    }
  }

  /** Codes shorter than n, and those of length n among the first i symbols, are assigned. */
  ghost predicate Assigned(lens: seq<Byte>, code: seq<int>, n: nat, i: nat) {
    |code| >= |lens| && forall k :: 0 <= k < |lens| && (lens[k] < n || (lens[k] == n && k < i)) ==> code[k] == Code(lens, k)
  }

  lemma AssignedNext(lens: seq<Byte>, code: seq<int>, n: nat, i: nat, vec: nat)
    requires n > 0 && i < |lens| && Assigned(lens, code, n, i) && vec == First(lens, n) + Count(lens[..i], n)
    ensures lens[i] == n ==> Assigned(lens, code[i := vec], n, i + 1) && vec + 1 == First(lens, n) + Count(lens[..i + 1], n)
    ensures lens[i] != n ==> Assigned(lens, code, n, i + 1) && vec == First(lens, n) + Count(lens[..i + 1], n)
  {
    CountNext(lens, i);
  }

  lemma AssignedLevel(lens: seq<Byte>, code: seq<int>, n: nat)
    requires n > 0 && Assigned(lens, code, n, |lens|)
    ensures Assigned(lens, code, n + 1, 0) && First(lens, n + 1) == 2 * (First(lens, n) + Count(lens[..|lens|], n))
  {
    assert lens[..|lens|] == lens;
  }

  /** BZ2_hbAssignCodes */
  method AssignCodes(code: array<int>, length: array<Byte>, minLen: nat, maxLen: nat, alphaSize: nat)
    requires alphaSize <= length.Length && alphaSize <= code.Length && Spans(length[..alphaSize], minLen, maxLen)
    modifies code
    ensures forall i :: 0 <= i < alphaSize ==> code[i] == Code(length[..alphaSize], i)
  {
    hide First, Past, Code, Count, Assigned;
    ghost var lens := length[..alphaSize];
    var vec := 0;
    NoneShorter(lens, minLen);
    assert Assigned(lens, code[..], minLen, 0) by { NoneAssigned(lens, code[..], minLen); }
    for n := minLen to maxLen + 1
      invariant vec == First(lens, n) && Assigned(lens, code[..], n, 0)
    {
      assert Count(lens[..0], n) == 0 by { CountNone(lens[..0], n); }
      for i := 0 to alphaSize
        invariant vec == First(lens, n) + Count(lens[..i], n) && Assigned(lens, code[..], n, i)
      {
        ghost var was := code[..];
        AssignedNext(lens, was, n, i, vec);
        assert lens[i] == length[i];
        if length[i] == n {
          code[i] := vec;
          assert code[..] == was[i := vec];
          vec := vec + 1;
        }
      }
      AssignedLevel(lens, code[..], n);
      vec := 2 * vec;
    }
    AllAssigned(lens, code[..], maxLen);
  }

  lemma NoneAssigned(lens: seq<Byte>, code: seq<int>, n: nat)
    requires |code| >= |lens| && forall i :: 0 <= i < |lens| ==> n <= lens[i]
    ensures Assigned(lens, code, n, 0)
  {
  }

  lemma AllAssigned(lens: seq<Byte>, code: seq<int>, maxLen: nat)
    requires Assigned(lens, code, maxLen + 1, 0) && forall i :: 0 <= i < |lens| ==> lens[i] <= maxLen
    ensures forall i :: 0 <= i < |lens| ==> code[i] == Code(lens, i)
  {
  }

  /** What the decoder's tables hold for a code. */
  ghost predicate Tables(lens: seq<Byte>, minLen: nat, maxLen: nat, limit: seq<int>, base: seq<int>, perm: seq<int>) {
    && Spans(lens, minLen, maxLen) && |limit| == |base| == TABLE_LEN && |perm| >= |lens|
    && (forall l :: minLen <= l <= maxLen ==> limit[l] == Past(lens, l) - 1 && base[l] == First(lens, l) - Start(lens, l))
    && (forall l :: maxLen < l < TABLE_LEN ==> limit[l] == 0)
    && forall k :: 0 <= k < |lens| ==> Slot(lens, k) < |lens| && perm[Slot(lens, k)] == k
  }

  /** The symbols shorter than i, and those of length i among the first j, are in their slots. */
  ghost predicate Placed(lens: seq<Byte>, perm: seq<int>, i: nat, j: nat) {
    && |perm| >= |lens|
    && forall k :: 0 <= k < |lens| && (lens[k] < i || (lens[k] == i && k < j)) ==> Slot(lens, k) < |lens| && perm[Slot(lens, k)] == k
  }

  lemma PlacedNext(lens: seq<Byte>, perm: seq<int>, i: nat, j: nat, pp: nat)
    requires j < |lens| && Placed(lens, perm, i, j) && pp == Start(lens, i) + Count(lens[..j], i)
    ensures lens[j] == i ==> pp < |lens| && Placed(lens, perm[pp := j], i, j + 1)
    ensures lens[j] == i ==> pp + 1 == Start(lens, i) + Count(lens[..j + 1], i)
    ensures lens[j] != i ==> Placed(lens, perm, i, j + 1) && pp == Start(lens, i) + Count(lens[..j + 1], i)
  {
    hide Start, Count;
    CountNext(lens, j);
    if lens[j] == i {
      SlotInBucket(lens, j);
      forall k | 0 <= k < |lens| && (lens[k] < i || (lens[k] == i && k < j))
        ensures Slot(lens, k) < pp
      {
        SlotOrder(lens, k, j);
      }
    }
  }

  lemma PlacedLevel(lens: seq<Byte>, perm: seq<int>, i: nat)
    requires Placed(lens, perm, i, |lens|)
    ensures Placed(lens, perm, i + 1, 0) && Start(lens, i + 1) == Start(lens, i) + Count(lens[..|lens|], i)
  {
    assert lens[..|lens|] == lens;
  }

  lemma NonePlaced(lens: seq<Byte>, perm: seq<int>, i: nat)
    requires |perm| >= |lens| && forall k :: 0 <= k < |lens| ==> i <= lens[k]
    ensures Placed(lens, perm, i, 0)
  {
  }

  lemma AllPlaced(lens: seq<Byte>, perm: seq<int>, maxLen: nat)
    requires Placed(lens, perm, maxLen + 1, 0) && forall i :: 0 <= i < |lens| ==> lens[i] <= maxLen
    ensures forall k :: 0 <= k < |lens| ==> Slot(lens, k) < |lens| && perm[Slot(lens, k)] == k
  {
  }

  method SortSymbols(perm: array<int>, length: array<Byte>, minLen: nat, maxLen: nat, alphaSize: nat)
    requires alphaSize <= length.Length && alphaSize <= perm.Length && Spans(length[..alphaSize], minLen, maxLen)
    modifies perm
    ensures forall k :: 0 <= k < alphaSize ==> Slot(length[..alphaSize], k) < alphaSize && perm[Slot(length[..alphaSize], k)] == k
  {
    hide Start, Count, Slot, Placed;
    ghost var lens := length[..alphaSize];
    var pp := 0;
    NoneShorter(lens, minLen);
    NonePlaced(lens, perm[..], minLen);
    for i := minLen to maxLen + 1
      invariant pp == Start(lens, i) && Placed(lens, perm[..], i, 0)
    {
      assert Count(lens[..0], i) == 0 by { CountNone(lens[..0], i); }
      for j := 0 to alphaSize
        invariant pp == Start(lens, i) + Count(lens[..j], i) && Placed(lens, perm[..], i, j)
      {
        ghost var was := perm[..];
        PlacedNext(lens, was, i, j, pp);
        assert lens[j] == length[j];
        if length[j] == i {
          perm[pp] := j;
          assert perm[..] == was[pp := j];
          pp := pp + 1;
        }
      }
      PlacedLevel(lens, perm[..], i);
    }
    AllPlaced(lens, perm[..], maxLen);
  }

  ghost predicate Tallied(lens: seq<Byte>, base: seq<int>, i: nat)
    requires i <= |lens|
  {
    |base| == TABLE_LEN && base[0] == 0 && forall l :: 1 <= l < TABLE_LEN ==> base[l] == Count(lens[..i], l - 1)
  }

  lemma TalliedNext(lens: seq<Byte>, base: seq<int>, i: nat)
    requires i < |lens| && lens[i] <= MAX_LEN && Tallied(lens, base, i)
    ensures var c: int := lens[i]; Tallied(lens, base[c + 1 := base[c + 1] + 1], i + 1)
  {
    CountNext(lens, i);
  }

  lemma NoneTallied(lens: seq<Byte>, base: seq<int>)
    requires |base| == TABLE_LEN && forall k :: 0 <= k < TABLE_LEN ==> base[k] == 0
    ensures Tallied(lens, base, 0)
  {
  }

  /** The running sums turn counts into bucket starts. */
  ghost predicate Summed(lens: seq<Byte>, base: seq<int>, i: nat) {
    && |base| == TABLE_LEN && (forall l :: 0 <= l < i <= TABLE_LEN ==> base[l] == Start(lens, l))
    && forall l :: 1 <= i <= l < TABLE_LEN ==> base[l] == Count(lens, l - 1)
  }

  lemma SummedStart(lens: seq<Byte>, base: seq<int>)
    requires Tallied(lens, base, |lens|)
    ensures Summed(lens, base, 1)
  {
    assert lens[..|lens|] == lens;
  }

  lemma SummedNext(lens: seq<Byte>, base: seq<int>, i: nat)
    requires 1 <= i < TABLE_LEN && Summed(lens, base, i)
    ensures Summed(lens, base[i := base[i] + base[i - 1]], i + 1)
  {
    assert base[i - 1] == Start(lens, i - 1);
  }

  /** The cumulative counts: base[l] is how many codes are shorter than l. */
  method CountLengths(base: array<int>, length: array<Byte>, alphaSize: nat)
    requires base.Length == TABLE_LEN && alphaSize <= length.Length && Coded(length[..alphaSize])
    modifies base
    ensures forall l :: 0 <= l < TABLE_LEN ==> base[l] == Start(length[..alphaSize], l)
  {
    hide Start, Count, Tallied;
    ghost var lens := length[..alphaSize];
    for i := 0 to TABLE_LEN
      invariant forall k :: 0 <= k < i ==> base[k] == 0
    {
      base[i] := 0;
    }
    NoneTallied(lens, base[..]);
    for i := 0 to alphaSize
      invariant Tallied(lens, base[..], i)
    {
      ghost var was := base[..];
      assert lens[i] == length[i];
      TalliedNext(lens, was, i);
      var c: int := length[i];
      base[c + 1] := base[c + 1] + 1;
      assert base[..] == was[c + 1 := was[c + 1] + 1];
    }
    SummedStart(lens, base[..]);
    for i := 1 to TABLE_LEN
      invariant Summed(lens, base[..], i)
    {
      ghost var was := base[..];
      SummedNext(lens, was, i);
      base[i] := base[i] + base[i - 1];
      assert base[..] == was[i := was[i] + was[i - 1]];
    }
  }

  /** BZ2_hbCreateDecodeTables, for any lengths, a prefix code or not. */
  method CreateDecodeTables(limit: array<int>, base: array<int>, perm: array<int>, length: array<Byte>,
                            minLen: nat, maxLen: nat, alphaSize: nat)
    requires limit != base && limit != perm && base != perm
    requires limit.Length == base.Length == TABLE_LEN && alphaSize <= perm.Length && alphaSize <= length.Length
    requires Spans(length[..alphaSize], minLen, maxLen)
    modifies limit, base, perm
    ensures Tables(length[..alphaSize], minLen, maxLen, limit[..], base[..], perm[..])
  {
    hide First, Past, Start, Count, Slot;
    ghost var lens := length[..alphaSize];
    SortSymbols(perm, length, minLen, maxLen, alphaSize);
    CountLengths(base, length, alphaSize);
    SetLimits(limit, base, minLen, maxLen, lens);
    NoneShorter(lens, minLen);
    for i := minLen + 1 to maxLen + 1
      modifies base
      invariant forall l :: minLen <= l < i ==> base[l] == First(lens, l) - Start(lens, l)
      invariant forall l :: i <= l <= maxLen ==> base[l] == Start(lens, l)
    {
      FirstStep(lens, i);
      assert limit[i - 1] == Past(lens, i - 1) - 1;
      base[i] := 2 * (limit[i - 1] + 1) - base[i];
    }
  }

  lemma FirstStep(lens: seq<Byte>, l: nat)
    requires l > 1
    ensures First(lens, l) == 2 * Past(lens, l - 1)
    ensures Past(lens, l) == First(lens, l) + (Start(lens, l + 1) - Start(lens, l))
  {
  }

  method SetLimits(limit: array<int>, base: array<int>, minLen: nat, maxLen: nat, ghost lens: seq<Byte>)
    requires limit != base && limit.Length == base.Length == TABLE_LEN && Spans(lens, minLen, maxLen)
    requires forall l :: 0 <= l < TABLE_LEN ==> base[l] == Start(lens, l)
    modifies limit
    ensures forall l :: minLen <= l <= maxLen ==> limit[l] == Past(lens, l) - 1
    ensures forall l :: maxLen < l < TABLE_LEN ==> limit[l] == 0
  {
    hide First, Past, Start, Count;
    for i := 0 to TABLE_LEN
      invariant forall k :: 0 <= k < i ==> limit[k] == 0
    {
      limit[i] := 0;
    }
    var vec := 0;
    NoneShorter(lens, minLen);
    for i := minLen to maxLen + 1
      invariant vec == First(lens, i)
      invariant forall l :: minLen <= l < i ==> limit[l] == Past(lens, l) - 1
      invariant forall l :: maxLen < l < TABLE_LEN ==> limit[l] == 0
    {
      FirstStep(lens, i + 1);
      PastStep(lens, i);
      assert base[i + 1] == Start(lens, i + 1) && base[i] == Start(lens, i);
      vec := vec + (base[i + 1] - base[i]);
      limit[i] := vec - 1;
      vec := 2 * vec;
    }
  }

  lemma PastStep(lens: seq<Byte>, l: nat)
    requires l > 0
    ensures Past(lens, l) == First(lens, l) + (Start(lens, l + 1) - Start(lens, l))
  {
  }

  lemma TableEntry(lens: seq<Byte>, minLen: nat, maxLen: nat, limit: seq<int>, base: seq<int>, perm: seq<int>, zn: nat, zvec: nat)
    requires Tables(lens, minLen, maxLen, limit, base, perm) && minLen <= zn <= MAX_LEN && First(lens, zn) <= zvec
    ensures zvec <= limit[zn] <==> zvec < Past(lens, zn)
    ensures zvec < Past(lens, zn) ==> 0 <= zvec - base[zn] < |lens| && perm[zvec - base[zn]] == Nth(lens, zn, zvec - First(lens, zn))
  {
    hide Kraft, ToBits, FromBits;
    if zn > maxLen {
      PositivePast(lens, minLen, zn);
      CountNone(lens, zn);
    } else if zvec < Past(lens, zn) {
      var s := Nth(lens, zn, zvec - First(lens, zn));
      assert Slot(lens, s) == zvec - base[zn];
    }
  }

  lemma {:induction false} PositivePast(lens: seq<Byte>, m: nat, l: nat)
    requires 1 <= m < l && exists i :: 0 <= i < |lens| && lens[i] == m
    ensures First(lens, l) > 0
  {
    if m + 1 < l {
      PositivePast(lens, m, l - 1);
    } else {
      var i :| 0 <= i < |lens| && lens[i] == m;
      CountPrefix(lens, i, m);
    }
  }

  /**
   * The decoding part of GET_MTF_VAL, on any tables CreateDecodeTables built. The result is the reference
   * decoder's; in particular the range test on perm's index never fires and no entry beyond the
   * symbols in use is read.
   */
  method ReadSymbol(input: BitReader, limit: array<int>, base: array<int>, perm: array<int>, minLen: nat,
                    ghost lens: seq<Byte>, ghost maxLen: nat)
    returns (st: Status, sym: nat)
    requires input.Valid() && Tables(lens, minLen, maxLen, limit[..], base[..], perm[..]) && perm.Length == MAX_ALPHA
    modifies input
    ensures input.Valid() && DecodeSymbol(lens, old(input.Rest())) == Outcome(st, sym, input.Rest())
  {
    hide First, Past, Nth, Count, Scan, Tables, DecodeSymbol, FromBits, ToBits, BytesToBits, Start;
    ghost var z0 := input.Rest();
    TableBounds(lens, minLen, maxLen, limit[..], base[..], perm[..]);
    st, sym := DataError, 0;
    var zn := minLen;
    var ok, zvec := input.Get(zn);
    DecodeStart(lens, minLen, z0);
    if !ok { return Starved, 0; }
    while true
      invariant input.Valid() && minLen <= zn <= MAX_LEN + 1 && First(lens, zn) <= zvec
      invariant Scan(lens, zn, zvec, input.Rest()) == DecodeSymbol(lens, z0)
      decreases MAX_LEN + 1 - zn
    {
      ghost var z := input.Rest();
      ScanCases(lens, zn, zvec, z);
      if zn > 20 { return DataError, 0; }
      TableEntry(lens, minLen, maxLen, limit[..], base[..], perm[..], zn, zvec);
      if zvec <= limit[zn] { break; }
      zn := zn + 1;
      var zj;
      ok, zj := input.Get(1);
      if !ok { return Starved, 0; }
      OneBit(z);
      zvec := 2 * zvec + zj;
    }
    if zvec - base[zn] < 0 || zvec - base[zn] >= MAX_ALPHA { return; }
    st, sym := Done, perm[zvec - base[zn]];
  }

  lemma TableBounds(lens: seq<Byte>, minLen: nat, maxLen: nat, limit: seq<int>, base: seq<int>, perm: seq<int>)
    requires Tables(lens, minLen, maxLen, limit, base, perm)
    ensures 1 <= minLen <= MAX_LEN && |limit| == |base| == TABLE_LEN && Coded(lens) && minLen == Shortest(lens)
  {
  }

  lemma DecodeStart(lens: seq<Byte>, m: nat, z: seq<bool>)
    requires Coded(lens) && m == Shortest(lens)
    ensures |z| < m ==> DecodeSymbol(lens, z) == Short
    ensures |z| >= m ==> First(lens, m) == 0 && DecodeSymbol(lens, z) == Scan(lens, m, FromBits(z[..m]), z[m..])
  {
    NoneShorter(lens, m);
  }

  lemma ScanCases(lens: seq<Byte>, zn: nat, zvec: nat, z: seq<bool>)
    requires zn > 0 && First(lens, zn) <= zvec
    ensures zn > MAX_LEN ==> Scan(lens, zn, zvec, z) == Bad
    ensures zn <= MAX_LEN && zvec < Past(lens, zn) ==>
              zvec - First(lens, zn) < Count(lens, zn) && Scan(lens, zn, zvec, z) == Got(Nth(lens, zn, zvec - First(lens, zn)), z)
    ensures zn <= MAX_LEN && zvec >= Past(lens, zn) && z == [] ==> Scan(lens, zn, zvec, z) == Short
    ensures zn <= MAX_LEN && zvec >= Past(lens, zn) && z != [] ==>
              var bit := if z[0] then 1 else 0;
              First(lens, zn + 1) <= 2 * zvec + bit && Scan(lens, zn, zvec, z) == Scan(lens, zn + 1, 2 * zvec + bit, z[1..])
  {
  }

  lemma OneBit(z: seq<bool>)
    requires z != []
    ensures FromBits(z[..1]) == if z[0] then 1 else 0
  {
    assert z[..1][..0] == [];
  }
}
