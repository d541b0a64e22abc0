/** Reading a block's mapping table, selectors and coding tables (libc/decompress.c:266-339). */
module ReceiveHeader {
  import opened Words
  import opened BitStream
  import opened CanonicalCode
  import opened MoveToFront
  import opened MtfCoding
  import opened BlockFormat

  /** GET_BIT */
  method GetFlag(r: BitReader) returns (ok: bool, b: bool)
    requires r.Valid()
    modifies r
    ensures r.Valid() && ok == (old(r.Rest()) != [])
    ensures ok ==> b == old(r.Rest())[0] && r.Rest() == old(r.Rest())[1..]
    ensures !ok ==> r.Rest() == old(r.Rest())
  {
    hide ToBits, BytesToBits, BitReader.Valid, BitReader.Rest;
    ghost var z := r.Rest();
    var v;
    ok, v := r.Get(1);
    b := v == 1;
    if ok {
      assert z[..1] == [z[0]];
      assert FromBits(z[..1][..0]) == 0;
    }
  }

  /** n single bits; if the input ends first, `ok` is false. */
  method GetFlags(r: BitReader, n: nat) returns (ok: bool, flags: seq<bool>)
    requires r.Valid()
    modifies r
    ensures r.Valid() && ok == (n <= |old(r.Rest())|)
    ensures ok ==> flags == old(r.Rest())[..n] && r.Rest() == old(r.Rest())[n..]
  {
    hide BitReader.Valid, BitReader.Rest;
    ghost var z := r.Rest();
    flags := [];
    for i := 0 to n
      invariant r.Valid() && i <= |z| && flags == z[..i] && r.Rest() == z[i..]
    {
      var b;
      ok, b := GetFlag(r);
      if !ok { return; }
      flags := flags + [b];
    }
    ok := true;
  }

  // ---- the mapping table ----

  method ReceiveMap(r: BitReader) returns (st: Status, inUse: seq<bool>)
    requires r.Valid()
    modifies r
    ensures r.Valid() && ParseMap(old(r.Rest())) == Outcome(st, inUse, r.Rest())
    ensures st.Done? ==> |inUse| == 256
  {
    hide BitReader.Valid, BitReader.Rest, ParseGroups, Unused;
    inUse := [];
    var ok, inUse16 := GetFlags(r, 16);
    if !ok { return Starved, inUse; }
    ghost var all := ParseGroups(inUse16, 0, r.Rest());
    PrependEnds(inUse, all);
    for i := 0 to 16
      invariant r.Valid() && |inUse| == 16 * i && all == Prepend(inUse, ParseGroups(inUse16, i, r.Rest()))
    {
      GroupCases(inUse16, i, r.Rest());
      ghost var later;
      if inUse16[i] {
        var group;
        ok, group := GetFlags(r, 16);
        if !ok { return Starved, inUse; }
        later := ParseGroups(inUse16, i + 1, r.Rest());
        PrependTwice(inUse, group, later);
        inUse := inUse + group;
      } else {
        later := ParseGroups(inUse16, i + 1, r.Rest());
        PrependTwice(inUse, Unused(), later);
        inUse := inUse + seq(16, _ => false);
        assert seq(16, _ => false) == Unused() by { UnusedIs(); }
      }
    }
    GroupCases(inUse16, 16, r.Rest());
    PrependEnds(inUse, ParseGroups(inUse16, 16, r.Rest()));
    st := Done;
  }

  lemma UnusedIs()
    ensures seq(16, _ => false) == Unused()
  {
  }

  lemma GroupCases(flags: seq<bool>, i: nat, z: seq<bool>)
    requires |flags| == 16 && i <= 16
    ensures i == 16 ==> ParseGroups(flags, i, z) == Got([], z)
    ensures i < 16 && !flags[i] ==> ParseGroups(flags, i, z) == Prepend(Unused(), ParseGroups(flags, i + 1, z))
    ensures i < 16 && flags[i] && |z| < 16 ==> ParseGroups(flags, i, z) == Short
    ensures i < 16 && flags[i] && |z| >= 16 ==> ParseGroups(flags, i, z) == Prepend(z[..16], ParseGroups(flags, i + 1, z[16..]))
  {
  }

  lemma PrependTwice<T>(x: seq<T>, y: seq<T>, r: Read<seq<T>>)
    ensures Prepend(x, Prepend(y, r)) == Prepend(x + y, r)
  {
    if r.Got? { assert x + (y + r.value) == x + y + r.value; }
  }

  lemma PrependEnds<T>(x: seq<T>, r: Read<seq<T>>)
    ensures Prepend([], r) == r
    ensures r.Got? && r.value == [] ==> Prepend(x, r) == Got(x, r.rest)
  {
    if r.Got? { assert [] + r.value == r.value && x + [] == x; }
  }

  // ---- the selectors ----

  /** A unary number below nGroups. */
  method ReceiveUnary(r: BitReader, nGroups: nat) returns (st: Status, j: nat)
    requires r.Valid() && nGroups > 0
    modifies r
    ensures r.Valid() && ParseUnary(old(r.Rest()), 0, nGroups) == Outcome(st, j, r.Rest())
  {
    hide BitReader.Valid, BitReader.Rest;
    j := 0;
    while true
      invariant r.Valid() && j < nGroups && ParseUnary(old(r.Rest()), 0, nGroups) == ParseUnary(r.Rest(), j, nGroups)
      decreases nGroups - j
    {
      var ok, uc := GetFlag(r);
      if !ok { return Starved, j; }
      if !uc { break; }
      j := j + 1;
      if j >= nGroups { return DataError, j; }
    }
    st := Done;
  }

  /** All the selector positions; those past MAX_SELECTORS are dropped. */
  method ReceiveSelectors(r: BitReader, nSelectors: nat, nGroups: nat) returns (st: Status, selectorMtf: seq<nat>, ghost mtf: seq<nat>)
    requires r.Valid() && nGroups > 0
    modifies r
    ensures r.Valid() && ParseUnaries(old(r.Rest()), nSelectors, nGroups) == Outcome(st, mtf, r.Rest())
    ensures st.Done? ==> selectorMtf == (if |mtf| > MAX_SELECTORS then mtf[..MAX_SELECTORS] else mtf)
  {
    hide BitReader.Valid, BitReader.Rest, ParseUnary, ParseUnaries;
    selectorMtf, mtf := [], [];
    ghost var all := ParseUnaries(r.Rest(), nSelectors, nGroups);
    PrependEnds(mtf, all);
    for i := 0 to nSelectors
      invariant r.Valid() && |mtf| == i && all == Prepend(mtf, ParseUnaries(r.Rest(), nSelectors - i, nGroups))
      invariant selectorMtf == if i > MAX_SELECTORS then mtf[..MAX_SELECTORS] else mtf
    {
      UnaryCases(r.Rest(), nSelectors - i, nGroups);
      var j;
      st, j := ReceiveUnary(r, nGroups);
      if !st.Done? { return; }
      PrependTwice(mtf, [j], ParseUnaries(r.Rest(), nSelectors - i - 1, nGroups));
      mtf := mtf + [j];
      if i < MAX_SELECTORS { selectorMtf := selectorMtf + [j]; }
    }
    UnaryCases(r.Rest(), 0, nGroups);
    PrependEnds(mtf, ParseUnaries(r.Rest(), 0, nGroups));
    st := Done;
  }

  lemma UnaryCases(z: seq<bool>, n: nat, nGroups: nat)
    requires nGroups > 0
    ensures n == 0 ==> ParseUnaries(z, n, nGroups) == Got([], z)
    ensures n > 0 ==> match ParseUnary(z, 0, nGroups)
                      case Got(j, rest) => ParseUnaries(z, n, nGroups) == Prepend([j], ParseUnaries(rest, n - 1, nGroups))
                      case Short => ParseUnaries(z, n, nGroups) == Short
                      case Bad => ParseUnaries(z, n, nGroups) == Bad
  {
  }

  /** Entry v of the list moves to its front. */
  method MoveEntry(pos: array<int>, v0: nat) returns (tmp: int)
    requires v0 < pos.Length
    modifies pos
    ensures tmp == old(pos[v0]) && pos[..] == MovedToFront(old(pos[..]), v0)
  {
    ghost var was := pos[..];
    var v := v0;
    tmp := pos[v];
    while v > 0
      invariant 0 <= v <= v0
      invariant forall i :: v < i <= v0 ==> pos[i] == was[i - 1]
      invariant forall i :: 0 <= i <= v || v0 < i < pos.Length ==> pos[i] == was[i]
    {
      pos[v] := pos[v - 1];
      v := v - 1;
    }
    pos[0] := tmp;
    forall i | 0 <= i < pos.Length
      ensures pos[i] == MovedToFront(was, v0)[i]
    {
      if 0 < i <= v0 { assert pos[i] == was[i - 1]; }
    }
  }

  method UndoSelectors(selectorMtf: seq<nat>, nGroups: nat) returns (selector: seq<int>)
    requires nGroups <= MAX_GROUPS && forall i :: 0 <= i < |selectorMtf| ==> selectorMtf[i] < nGroups
    ensures selector == SelectorUndo(Iota(nGroups), selectorMtf)
  {
    hide SelectorUndo, MovedToFront;
    var pos := new int[nGroups](i => i);
    ghost var list := Iota(nGroups);
    assert pos[..] == list && selectorMtf[0..] == selectorMtf;
    selector := [];
    for i := 0 to |selectorMtf|
      invariant |list| == nGroups && pos[..] == list
      invariant selector + SelectorUndo(list, selectorMtf[i..]) == SelectorUndo(Iota(nGroups), selectorMtf)
    {
      UndoNext(list, selectorMtf, i);
      var tmp := MoveEntry(pos, selectorMtf[i]);
      list := MovedToFront(list, selectorMtf[i]);
      selector := selector + [tmp];
    }
    assert SelectorUndo(list, selectorMtf[|selectorMtf|..]) == [] by { NoUndo(list, selectorMtf[|selectorMtf|..]); }
  }

  lemma UndoNext(list: seq<int>, mtf: seq<nat>, i: nat)
    requires i < |mtf| && forall k :: 0 <= k < |mtf| ==> mtf[k] < |list|
    ensures SelectorUndo(list, mtf[i..]) == [list[mtf[i]]] + SelectorUndo(MovedToFront(list, mtf[i]), mtf[i + 1..])
  {
    assert mtf[i..][1..] == mtf[i + 1..];
  }

  lemma NoUndo(list: seq<int>, mtf: seq<nat>)
    requires mtf == []
    ensures SelectorUndo(list, mtf) == []
  {
  }

  // ---- the coding tables ----

  method ReceiveLength(r: BitReader, curr0: int) returns (st: Status, curr: int)
    requires r.Valid()
    modifies r
    ensures r.Valid() && (st.Done? ==> 1 <= curr <= MAX_LEN)
    ensures ParseLength(curr0, old(r.Rest())) == Outcome(st, if st.Done? then curr else 0, r.Rest())
  {
    hide BitReader.Valid, BitReader.Rest;
    curr := curr0;
    ghost var all := ParseLength(curr0, r.Rest());
    while true
      invariant r.Valid() && all == ParseLength(curr, r.Rest())
      decreases |r.Rest()|
    {
      if curr < 1 || curr > 20 { return DataError, curr; }
      ghost var z := r.Rest();
      var ok, uc := GetFlag(r);
      if !ok { return Starved, curr; }
      if !uc { break; }
      ok, uc := GetFlag(r);
      if !ok { return Starved, curr; }
      assert z[1..][1..] == z[2..];
      if !uc { curr := curr + 1; } else { curr := curr - 1; }
    }
    st := Done;
  }

  method ReceiveTable(r: BitReader, alphaSize: nat) returns (st: Status, lens: seq<Byte>)
    requires r.Valid()
    modifies r
    ensures r.Valid() && ParseTable(alphaSize, old(r.Rest())) == Outcome(st, lens, r.Rest())
  {
    hide BitReader.Valid, BitReader.Rest, ParseLength, ParseLengths, FromBits;
    lens := [];
    var ok, start := r.Get(5);
    if !ok { return Starved, []; }
    var curr: int := start;
    ghost var all := ParseLengths(curr, alphaSize, r.Rest());
    PrependEnds(lens, all);
    for i := 0 to alphaSize
      invariant r.Valid() && all == Prepend(lens, ParseLengths(curr, alphaSize - i, r.Rest()))
    {
      LengthCases(curr, alphaSize - i, r.Rest());
      st, curr := ReceiveLength(r, curr);
      if !st.Done? { return; }
      PrependTwice(lens, [curr as Byte], ParseLengths(curr, alphaSize - i - 1, r.Rest()));
      lens := lens + [curr];
    }
    LengthCases(curr, 0, r.Rest());
    PrependEnds(lens, ParseLengths(curr, 0, r.Rest()));
    st := Done;
  }

  lemma LengthCases(curr: int, n: nat, z: seq<bool>)
    ensures n == 0 ==> ParseLengths(curr, n, z) == Got([], z)
    ensures n > 0 ==> match ParseLength(curr, z)
                      case Got(l, rest) => ParseLengths(curr, n, z) == Prepend([l], ParseLengths(l, n - 1, rest))
                      case Short => ParseLengths(curr, n, z) == Short
                      case Bad => ParseLengths(curr, n, z) == Bad
  {
  }

  method ReceiveTables(r: BitReader, nGroups: nat, alphaSize: nat) returns (st: Status, tables: seq<seq<Byte>>)
    requires r.Valid() && 0 < alphaSize <= MAX_ALPHA
    modifies r
    ensures r.Valid() && ParseTables(nGroups, alphaSize, old(r.Rest())) == Outcome(st, tables, r.Rest())
  {
    hide BitReader.Valid, BitReader.Rest, ParseTable, ParseTables;
    tables := [];
    ghost var all := ParseTables(nGroups, alphaSize, r.Rest());
    PrependEnds(tables, all);
    for t := 0 to nGroups
      invariant r.Valid() && all == Prepend(tables, ParseTables(nGroups - t, alphaSize, r.Rest()))
    {
      TableCases(nGroups - t, alphaSize, r.Rest());
      var lens;
      st, lens := ReceiveTable(r, alphaSize);
      if !st.Done? { return; }
      PrependTwice(tables, [lens], ParseTables(nGroups - t - 1, alphaSize, r.Rest()));
      tables := tables + [lens];
    }
    TableCases(0, alphaSize, r.Rest());
    PrependEnds(tables, ParseTables(0, alphaSize, r.Rest()));
    st := Done;
  }

  lemma TableCases(t: nat, n: nat, z: seq<bool>)
    requires 0 < n <= MAX_ALPHA
    ensures t == 0 ==> ParseTables(t, n, z) == Got([], z)
    ensures t > 0 ==> match ParseTable(n, z)
                      case Got(lens, rest) => ParseTables(t, n, z) == Prepend([lens], ParseTables(t - 1, n, rest))
                      case Short => ParseTables(t, n, z) == Short
                      case Bad => ParseTables(t, n, z) == Bad
  {
  }
}
