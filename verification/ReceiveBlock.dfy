/** Reading a block and inverting its transform (libc/decompress.c:240-582). */
module ReceiveBlock {
  import opened Words
  import opened Counting
  import opened BitStream
  import opened CanonicalCode
  import opened MoveToFront
  import opened MtfCoding
  import opened MtfEncoder
  import opened BlockFormat
  import opened BlockData
  import opened ReceiveHeader
  import opened ReceiveData
  import opened InverseBwt

  lemma {:induction false} FromBitsAppend(a: seq<bool>, b: seq<bool>)
    ensures FromBits(a + b) == FromBits(a) * Pow2(|b|) + FromBits(b)
    decreases |b|
  {
    if b == [] {
      assert a + b == a;
    } else {
      var b' := b[..|b| - 1];
      FromBitsAppend(a, b');
      assert (a + b)[..|a + b| - 1] == a + b';
      Doubled(FromBits(a), Pow2(|b'|));
    }
  }

  /** A number of n bytes, most significant first, as GET_UCHAR collects it. */
  method GetBytes(r: BitReader, n: nat) returns (ok: bool, v: nat)
    requires r.Valid()
    modifies r
    ensures r.Valid() && ok == (8 * n <= |old(r.Rest())|)
    ensures ok ==> v == FromBits(old(r.Rest())[..8 * n]) && r.Rest() == old(r.Rest())[8 * n..]
  {
    hide BitReader.Valid, BitReader.Rest, FromBits;
    ghost var z := r.Rest();
    v := 0;
    assert FromBits(z[..0]) == 0 by { NoValue(z[..0]); }
    for i := 0 to n
      invariant r.Valid() && 8 * i <= |z| && v == FromBits(z[..8 * i]) && r.Rest() == z[8 * i..]
    {
      var uc;
      ok, uc := r.Get(8);
      if !ok { return; }
      ghost var byte := z[8 * i..][..8];
      assert z[..8 * (i + 1)] == z[..8 * i] + byte && z[8 * i..][8..] == z[8 * (i + 1)..];
      FromBitsAppend(z[..8 * i], byte);
      Pow2Values();
      OrIntoClear(v, uc, 8);
      v := Or(v * 256, uc);
    }
    ok := true;
  }

  lemma NoValue(z: seq<bool>)
    requires z == []
    ensures FromBits(z) == 0
  {
  }

  // ---- tables of a block ----

  ghost predicate Separate(decs: seq<DecodeTable>, a: array<int>) {
    forall d :: d in decs ==> a !in {d.limit, d.base, d.perm}
  }

  method MakeDecoders(tables: seq<seq<Byte>>, ghost tt: array<int>, ghost unzftab: array<int>) returns (decs: seq<DecodeTable>)
    requires forall t :: 0 <= t < |tables| ==> Coded(tables[t])
    ensures Ready(decs, tables) && Separate(decs, tt) && Separate(decs, unzftab)
  {
    hide DecodeTable.For, Coded;
    decs := [];
    for t := 0 to |tables|
      invariant |decs| == t && Separate(decs, tt) && Separate(decs, unzftab)
      invariant forall u :: 0 <= u < t ==> decs[u].For(tables[u])
    {
      var d := new DecodeTable(tables[t]);
      decs := decs + [d];
    }
  }

  // ---- from the bytes in use to the column ----

  method ReceiveColumn(r: BitReader, inUse: seq<bool>, tables: seq<seq<Byte>>, selector: seq<int>, level: nat,
                       crc: nat, randomised: bool, origPtr: nat, tt: array<int>, unzftab: array<int>)
    returns (st: Status, nblock: nat, ghost l: seq<Byte>)
    requires r.Valid() && |inUse| == 256 && Coding(tables, selector, |Used(inUse, 256)|)
    requires tt != unzftab && 100000 * level <= tt.Length && unzftab.Length == 256
    modifies r, tt, unzftab
    ensures r.Valid()
    ensures ParseColumn(inUse, tables, selector, level, crc, randomised, origPtr, old(r.Rest()))
            == Outcome(st, Block(crc, randomised, origPtr, l), r.Rest())
    ensures st.Done? ==> nblock == |l| <= tt.Length && tt[..nblock] == l && forall c :: 0 <= c < 256 ==> unzftab[c] == Count(l, c)
  {
    hide BitReader.Valid, BitReader.Rest, Coding, DecodeData, Ready, Used, Ranked, Count;
    l := [];
    CodingTables(tables, selector, |Used(inUse, 256)|);
    var decs := MakeDecoders(tables, tt, unzftab);
    var u := Used(inUse, 256);
    ghost var col;
    st, nblock, col := DecodeColumn(r, decs, selector, u, tt, unzftab, 100000 * level, tables);
    if !st.Done? { return; }
    if origPtr >= nblock { return DataError, nblock, l; }
    l := Named(u, col);
  }

  lemma CodingTables(tables: seq<seq<Byte>>, sel: seq<int>, n: nat)
    requires Coding(tables, sel, n)
    ensures 1 <= n <= 256 && forall t :: 0 <= t < |tables| ==> Coded(tables[t])
  {
  }

  method ReceiveCoding(r: BitReader, inUse: seq<bool>, nInUse: nat, level: nat, crc: nat, randomised: bool, origPtr: nat,
                       tt: array<int>, unzftab: array<int>)
    returns (st: Status, nblock: nat, ghost l: seq<Byte>)
    requires r.Valid() && |inUse| == 256 && 0 < nInUse == |Used(inUse, 256)|
    requires tt != unzftab && 100000 * level <= tt.Length && unzftab.Length == 256
    modifies r, tt, unzftab
    ensures r.Valid()
    ensures ParseCoding(inUse, level, crc, randomised, origPtr, old(r.Rest()))
            == Outcome(st, Block(crc, randomised, origPtr, l), r.Rest())
    ensures st.Done? ==> nblock == |l| <= tt.Length && tt[..nblock] == l && forall c :: 0 <= c < 256 ==> unzftab[c] == Count(l, c)
  {
    hide BitReader.Valid, BitReader.Rest, ParseColumn, ParseUnaries, ParseTables, SelectorUndo, Used, FromBits, Count, Coded;
    nblock, l := 0, [];
    ghost var z := r.Rest();
    var ok, nGroups := r.Get(3);
    if !ok { return Starved, nblock, l; }
    if nGroups < 2 || nGroups > MAX_GROUPS { return DataError, nblock, l; }
    var nSelectors;
    ok, nSelectors := r.Get(15);
    if !ok { return Starved, nblock, l; }
    assert z[3..][..15] == z[3..18] && z[3..][15..] == z[18..];
    if nSelectors < 1 { return DataError, nblock, l; }
    var selectorMtf;
    ghost var mtf;
    st, selectorMtf, mtf := ReceiveSelectors(r, nSelectors, nGroups);
    if !st.Done? { return; }
    var selector := UndoSelectors(selectorMtf, nGroups);
    var tables;
    st, tables := ReceiveTables(r, nGroups, nInUse + 2);
    if !st.Done? { return; }
    st, nblock, l := ReceiveColumn(r, inUse, tables, selector, level, crc, randomised, origPtr, tt, unzftab);
  }

  /** A block from its CRC on. */
  method ReceiveBody(r: BitReader, level: nat, tt: array<int>, unzftab: array<int>)
    returns (st: Status, crc: nat, randomised: bool, origPtr: nat, nblock: nat, ghost l: seq<Byte>)
    requires r.Valid() && tt != unzftab && 100000 * level <= tt.Length && unzftab.Length == 256
    modifies r, tt, unzftab
    ensures r.Valid()
    ensures ParseBody(level, old(r.Rest())) == Outcome(st, Block(crc, randomised, origPtr, l), r.Rest())
    ensures st.Done? ==> nblock == |l| <= tt.Length && tt[..nblock] == l && forall c :: 0 <= c < 256 ==> unzftab[c] == Count(l, c)
  {
    hide BitReader.Valid, BitReader.Rest, ParseCoding, ParseMap, Used, FromBits, Count;
    st, crc, randomised, origPtr, nblock, l := Starved, 0, false, 0, 0, [];
    ghost var z := r.Rest();
    var ok;
    ok, crc := GetBytes(r, 4);
    if !ok { return; }
    ok, randomised := GetFlag(r);
    if !ok { return; }
    assert z[32..][0] == z[32] && z[32..][1..] == z[33..];
    ok, origPtr := GetBytes(r, 3);
    if !ok { return; }
    assert z[33..][..24] == z[33..57] && z[33..][24..] == z[57..];
    if origPtr > 10 + 100000 * level { st := DataError; return; }
    var inUse;
    st, inUse := ReceiveMap(r);
    if !st.Done? { return; }
    var nInUse := CountUsed(inUse);
    if nInUse == 0 { st := DataError; return; }
    st, nblock, l := ReceiveCoding(r, inUse, nInUse, level, crc, randomised, origPtr, tt, unzftab);
  }

  /** makeMaps_d, for its count. */
  method CountUsed(inUse: seq<bool>) returns (nInUse: nat)
    requires |inUse| == 256
    ensures nInUse == |Used(inUse, 256)|
  {
    var flags, map' := new bool[256](i requires 0 <= i < 256 => inUse[i]), new int[256];
    assert flags[..] == inUse;
    nInUse := MakeMapsD(flags, map');
  }

  // ---- cumulative counts and the inverse vector ----

  /** Bucket starts from byte counts; none of the range checks can fail. */
  method MakeCftab(unzftab: array<int>, cftab: array<int>, nblock: nat, ghost l: seq<Byte>) returns (ok: bool)
    requires unzftab.Length == 256 && cftab.Length == 257 && unzftab != cftab && nblock == |l|
    requires forall c :: 0 <= c < 256 ==> unzftab[c] == Count(l, c)
    modifies cftab
    ensures ok && forall c :: 0 <= c <= 256 ==> cftab[c] == Start(l, c)
  {
    hide Count, Start;
    ok := false;
    forall c: nat | c <= 256
      ensures 0 <= Start(l, c) <= nblock && (c < 256 ==> 0 <= Count(l, c) <= nblock && Start(l, c + 1) == Start(l, c) + Count(l, c))
    {
      StartBounds(l, c);
    }
    for i := 0 to 256
      modifies {}
    {
      StartBounds(l, i);
      if unzftab[i] < 0 || unzftab[i] > nblock { return; }
    }
    cftab[0] := 0;
    for i := 1 to 257
      invariant cftab[0] == 0 && forall c :: 1 <= c < i ==> cftab[c] == Count(l, c - 1)
    {
      cftab[i] := unzftab[i - 1];
    }
    assert Start(l, 0) == 0 by { StartBounds(l, 0); }
    for i := 1 to 257
      invariant forall c :: 0 <= c < i ==> cftab[c] == Start(l, c)
      invariant forall c :: i <= c < 257 ==> cftab[c] == Count(l, c - 1)
    {
      StartBounds(l, i - 1);
      cftab[i] := cftab[i] + cftab[i - 1];
    }
    for i := 0 to 257
      invariant forall c :: 0 <= c <= 256 ==> cftab[c] == Start(l, c)
    {
      if cftab[i] < 0 || cftab[i] > nblock { return; }
    }
    for i := 1 to 257
      invariant forall c :: 0 <= c <= 256 ==> cftab[c] == Start(l, c)
    {
      StartBounds(l, i - 1);
      if cftab[i - 1] > cftab[i] { return; }
    }
    ok := true;
  }

  lemma StartBounds(l: seq<Byte>, c: nat)
    requires c <= 256
    ensures 0 <= Start(l, c) <= |l| && (c == 0 ==> Start(l, c) == 0)
    ensures c < 256 ==> 0 <= Count(l, c) <= |l| && Start(l, c + 1) == Start(l, c) + Count(l, c)
  {
    StartMonotone(l, c, 256);
    if c < 256 { StartMonotone(l, c + 1, 256); }
    StartTotal(l);
  }

  /** Read a block and build T^(-1): the decoder is ready to walk it from origPtr. */
  method Receive(r: BitReader, level: nat, tt: array<int>)
    returns (st: Status, crc: nat, randomised: bool, origPtr: nat, nblock: nat, ghost l: seq<Byte>, ghost p: seq<int>)
    requires r.Valid() && level <= 9 && 100000 * level <= tt.Length
    modifies r, tt
    ensures r.Valid()
    ensures ParseBody(level, old(r.Rest())) == Outcome(st, Block(crc, randomised, origPtr, l), r.Rest())
    ensures st.Done? ==> 0 <= origPtr < nblock == |l| && InvertsSlots(l, p) && Packed(l, p, tt[..])
  {
    hide BitReader.Valid, BitReader.Rest, ParseBody, Count, Start, InvertsSlots, Packed;
    p := [];
    var unzftab, cftab := new int[256], new int[257];
    st, crc, randomised, origPtr, nblock, l := ReceiveBody(r, level, tt, unzftab);
    if !st.Done? { return; }
    var ok := MakeCftab(unzftab, cftab, nblock, l);
    assert forall k :: 0 <= k < nblock ==> tt[..nblock][k] == l[k];
    p := BuildFast(tt, cftab, nblock, l);
  }
}
