/** Writing a block's symbols: sendMTFValues after the tables are chosen (libc/compress.c:461-594). */
module SendValues {
  import opened Words
  import opened Counting
  import opened BitStream
  import opened CanonicalCode
  import opened CodeTables
  import opened MoveToFront
  import opened MtfCoding
  import opened MtfEncoder
  import opened BlockFormat
  import opened BlockData

  /** bsW of a single bit. */
  method PutFlag(w: BitWriter, b: bool)
    requires w.Valid() && |w.Stream()| + 1 <= 8 * w.zbits.Length
    modifies w, w.zbits
    ensures w.Valid() && w.zbits == old(w.zbits) && w.Stream() == old(w.Stream()) + [b]
  {
    OneFlag(b);
    w.Put(1, if b then 1 else 0);
  }

  lemma OneFlag(b: bool)
    ensures Pow2(1) == 2 && ToBits(if b then 1 else 0, 1) == [b]
  {
    assert ToBits(0, 0) == [];
  }

  // ---- the mapping table ----

  method PutFlags(w: BitWriter, flags: seq<bool>)
    requires w.Valid() && |w.Stream()| + |flags| <= 8 * w.zbits.Length
    modifies w, w.zbits
    ensures w.Valid() && w.zbits == old(w.zbits) && w.Stream() == old(w.Stream()) + flags
  {
    hide BitWriter.Valid, BitWriter.Stream;
    ghost var was := w.Stream();
    for i := 0 to |flags|
      invariant w.Valid() && w.zbits == old(w.zbits) && w.Stream() == was + flags[..i]
    {
      PutFlag(w, flags[i]);
      assert flags[..i + 1] == flags[..i] + [flags[i]];
    }
    assert flags[..|flags|] == flags;
  }

  method SendMap(w: BitWriter, inUse: seq<bool>)
    requires w.Valid() && |inUse| == 256 && |w.Stream()| + |MapBits(inUse)| <= 8 * w.zbits.Length
    modifies w, w.zbits
    ensures w.Valid() && w.zbits == old(w.zbits) && w.Stream() == old(w.Stream()) + MapBits(inUse)
  {
    hide AnyUsed, GroupBits, BitWriter.Valid, BitWriter.Stream;
    ghost var was, flags := w.Stream(), Flags(inUse);
    var inUse16 := UsedGroups(inUse);
    PutFlags(w, inUse16);
    assert was + flags + GroupBits(inUse, 0) == was + MapBits(inUse);
    for i := 0 to 16
      invariant w.Valid() && w.zbits == old(w.zbits) && w.Stream() + GroupBits(inUse, i) == was + MapBits(inUse)
    {
      GroupNext(inUse, i);
      if inUse16[i] {
        ghost var here, group := w.Stream(), inUse[16 * i..16 * i + 16];
        assert here + (group + GroupBits(inUse, i + 1)) == here + group + GroupBits(inUse, i + 1);
        PutFlags(w, inUse[16 * i..16 * i + 16]);
      }
    }
    assert GroupBits(inUse, 16) == [] by { NoGroups(inUse); }
  }

  lemma GroupNext(used: seq<bool>, i: nat)
    requires |used| == 256 && i < 16
    ensures AnyUsed(used, i) ==> GroupBits(used, i) == used[16 * i..16 * i + 16] + GroupBits(used, i + 1)
    ensures !AnyUsed(used, i) ==> GroupBits(used, i) == GroupBits(used, i + 1)
  {
  }

  lemma NoGroups(used: seq<bool>)
    requires |used| == 256
    ensures GroupBits(used, 16) == []
  {
  }

  method UsedGroups(inUse: seq<bool>) returns (inUse16: seq<bool>)
    requires |inUse| == 256
    ensures inUse16 == Flags(inUse)
  {
    inUse16 := [];
    for i := 0 to 16
      invariant |inUse16| == i && forall k :: 0 <= k < i ==> inUse16[k] == AnyUsed(inUse, k)
    {
      var any := false;
      for j := 0 to 16
        invariant any <==> exists k :: 16 * i <= k < 16 * i + j && inUse[k]
      {
        if inUse[i * 16 + j] { any := true; }
      }
      inUse16 := inUse16 + [any];
    }
  }

  // ---- the selectors ----

  ghost predicate Listed(list: seq<int>, sel: seq<int>) {
    forall i :: 0 <= i < |sel| ==> sel[i] in list
  }

  /** Selector positions under move-to-front (libc/compress.c:461-478). */
  method SelectorsToFront(selector: seq<int>, nGroups: nat) returns (selectorMtf: seq<nat>)
    requires nGroups <= MAX_GROUPS && Listed(Iota(nGroups), selector)
    ensures selectorMtf == SelectorMtf(Iota(nGroups), selector)
  {
    hide Listed, SelectorMtf, MovedToFront;
    var pos := new int[MAX_GROUPS](i => i);
    selectorMtf := [];
    ghost var list := Iota(nGroups);
    assert pos[..nGroups] == list && selector[0..] == selector;
    ListedParts(list, selector);
    ghost var all := SelectorMtf(list, selector);
    for i := 0 to |selector|
      invariant |list| == nGroups && pos[..nGroups] == list && Listed(list, selector[i..])
      invariant selectorMtf + SelectorRest(list, selector[i..]) == all
    {
      ghost var tail := pos[nGroups..];
      assert pos[..] == list + tail;
      SelectorNext(list, selector, i);
      var j := RotateToFront(pos, selector[i], nGroups);
      IndexOfIs(list, selector[i], j);
      MovedPrefix(list, tail, j);
      list := MovedToFront(list, j);
      assert pos[..nGroups] == list;
      selectorMtf := selectorMtf + [j];
    }
    NoSelectors(list, selector[|selector|..]);
  }

  ghost function SelectorRest(list: seq<int>, sel: seq<int>): seq<nat>
    requires Listed(list, sel)
  {
    ListedParts(list, sel);
    SelectorMtf(list, sel)
  }

  lemma ListedParts(list: seq<int>, sel: seq<int>)
    requires Listed(list, sel)
    ensures forall i :: 0 <= i < |sel| ==> sel[i] in list
  {
  }

  lemma SelectorNext(list: seq<int>, sel: seq<int>, i: nat)
    requires i < |sel| && Listed(list, sel[i..])
    ensures sel[i] in list
    ensures var j := IndexOf(list, sel[i]);
            Listed(MovedToFront(list, j), sel[i + 1..]) &&
            SelectorRest(list, sel[i..]) == [j] + SelectorRest(MovedToFront(list, j), sel[i + 1..])
  {
    assert sel[i..][0] == sel[i] && sel[i..][1..] == sel[i + 1..];
    var j := IndexOf(list, sel[i]);
    MovedKeeps(list, j);
    var here, later := sel[i..], sel[i + 1..];
    assert forall k :: 0 <= k < |later| ==> later[k] == here[k + 1];
  }

  lemma NoSelectors(list: seq<int>, sel: seq<int>)
    requires sel == []
    ensures Listed(list, sel) && SelectorRest(list, sel) == []
  {
  }

  method SendSelectors(w: BitWriter, selectorMtf: seq<nat>)
    requires w.Valid() && |w.Stream()| + |UnaryBits(selectorMtf)| <= 8 * w.zbits.Length
    modifies w, w.zbits
    ensures w.Valid() && w.zbits == old(w.zbits) && w.Stream() == old(w.Stream()) + UnaryBits(selectorMtf)
  {
    hide BitWriter.Valid, BitWriter.Stream, UnaryBits;
    ghost var all := w.Stream() + UnaryBits(selectorMtf);
    assert selectorMtf[0..] == selectorMtf;
    for i := 0 to |selectorMtf|
      invariant w.Valid() && w.zbits == old(w.zbits) && w.Stream() + UnaryBits(selectorMtf[i..]) == all
    {
      ghost var rest := UnaryBits(selectorMtf[i + 1..]);
      UnaryNext(selectorMtf, i);
      assert w.Stream() + (Unary(selectorMtf[i]) + rest) == w.Stream() + Unary(selectorMtf[i]) + rest;
      for j := 0 to selectorMtf[i]
        invariant w.Valid() && w.zbits == old(w.zbits) && w.Stream() + Unary(selectorMtf[i] - j) + rest == all
      {
        ghost var here := w.Stream();
        PutFlag(w, true);
        assert here + [true] + Unary(selectorMtf[i] - j - 1) == here + Unary(selectorMtf[i] - j);
      }
      PutFlag(w, false);
    }
    assert UnaryBits(selectorMtf[|selectorMtf|..]) == [] by { NoUnary(selectorMtf[|selectorMtf|..]); }
  }

  lemma UnaryNext(mtf: seq<nat>, i: nat)
    requires i < |mtf|
    ensures UnaryBits(mtf[i..]) == Unary(mtf[i]) + UnaryBits(mtf[i + 1..])
  {
    assert mtf[i..][1..] == mtf[i + 1..];
  }

  lemma NoUnary(mtf: seq<nat>)
    requires mtf == []
    ensures UnaryBits(mtf) == []
  {
  }

  // ---- the coding tables ----

  method SendTable(w: BitWriter, lens: seq<Byte>)
    requires w.Valid() && Coded(lens) && |w.Stream()| + |TableBits(lens)| <= 8 * w.zbits.Length
    modifies w, w.zbits
    ensures w.Valid() && w.zbits == old(w.zbits) && w.Stream() == old(w.Stream()) + TableBits(lens)
  {
    hide BitWriter.Valid, BitWriter.Stream, ToBits, DeltaBits, Delta, Pow2;
    ghost var all := w.Stream() + TableBits(lens);
    var curr: int := lens[0];
    FiveBits();
    assert w.Stream() + (ToBits(curr, 5) + DeltaBits(curr, lens)) == w.Stream() + ToBits(curr, 5) + DeltaBits(curr, lens);
    w.Put(5, curr);
    assert lens[0..] == lens;
    for i := 0 to |lens|
      invariant 1 <= curr <= MAX_LEN && w.Valid() && w.zbits == old(w.zbits) && w.Stream() + DeltaBits(curr, lens[i..]) == all
    {
      ghost var rest := DeltaBits(lens[i], lens[i + 1..]);
      DeltaNext(curr, lens, i);
      curr := SendDelta(w, curr, lens[i], rest, all);
    }
    assert DeltaBits(curr, lens[|lens|..]) == [] by { NoDelta(curr, lens[|lens|..]); }
  }

  lemma FiveBits()
    ensures Pow2(5) == 32 && Pow2(2) == 4 && ToBits(2, 2) == [true, false] && ToBits(3, 2) == [true, true]
  {
    assert ToBits(0, 0) == [] && ToBits(1, 1) == [true];
  }

  lemma DeltaNext(curr: nat, lens: seq<Byte>, i: nat)
    requires i < |lens|
    ensures DeltaBits(curr, lens[i..]) == Delta(curr, lens[i]) + DeltaBits(lens[i], lens[i + 1..])
  {
    assert lens[i..][1..] == lens[i + 1..];
  }

  lemma NoDelta(curr: nat, lens: seq<Byte>)
    requires lens == []
    ensures DeltaBits(curr, lens) == []
  {
  }

  lemma DeltaStep(a: nat, b: nat)
    ensures a < b ==> Delta(a, b) == [true, false] + Delta(a + 1, b)
    ensures a > b ==> Delta(a, b) == [true, true] + Delta(a - 1, b)
    ensures a == b ==> Delta(a, b) == [false]
  {
  }

  /** Step the current length up or down to b, then a zero bit. */
  method SendDelta(w: BitWriter, a: nat, b: nat, ghost rest: seq<bool>, ghost all: seq<bool>) returns (curr: nat)
    requires w.Valid() && w.Stream() + (Delta(a, b) + rest) == all && |all| <= 8 * w.zbits.Length
    modifies w, w.zbits
    ensures w.Valid() && w.zbits == old(w.zbits) && curr == b && w.Stream() + rest == all
  {
    hide BitWriter.Valid, BitWriter.Stream, ToBits, Delta, Pow2;
    FiveBits();
    curr := a;
    assert w.Stream() + (Delta(a, b) + rest) == w.Stream() + Delta(a, b) + rest;
    while curr < b
      invariant (a <= b ==> curr <= b) && (a > b ==> curr == a)
      invariant w.Valid() && w.zbits == old(w.zbits) && w.Stream() + Delta(curr, b) + rest == all
    {
      DeltaStep(curr, b);
      ghost var here := w.Stream();
      w.Put(2, 2);
      assert here + ([true, false] + Delta(curr + 1, b)) == here + [true, false] + Delta(curr + 1, b);
      curr := curr + 1;
    }
    while curr > b
      invariant curr >= b
      invariant w.Valid() && w.zbits == old(w.zbits) && w.Stream() + Delta(curr, b) + rest == all
    {
      DeltaStep(curr, b);
      ghost var here := w.Stream();
      w.Put(2, 3);
      assert here + ([true, true] + Delta(curr - 1, b)) == here + [true, true] + Delta(curr - 1, b);
      curr := curr - 1;
    }
    DeltaStep(b, b);
    PutFlag(w, false);
  }

  method SendTables(w: BitWriter, tables: seq<seq<Byte>>)
    requires w.Valid() && (forall t :: 0 <= t < |tables| ==> tables[t] != [] && Coded(tables[t]))
    requires |w.Stream()| + |TablesBits(tables)| <= 8 * w.zbits.Length
    modifies w, w.zbits
    ensures w.Valid() && w.zbits == old(w.zbits) && w.Stream() == old(w.Stream()) + TablesBits(tables)
  {
    hide BitWriter.Valid, BitWriter.Stream, ToBits, TablesBits, TableBits;
    ghost var all := w.Stream() + TablesBits(tables);
    assert tables[0..] == tables;
    for t := 0 to |tables|
      invariant w.Valid() && w.zbits == old(w.zbits) && w.Stream() + TablesBits(tables[t..]) == all
    {
      TableNext(tables, t);
      ghost var here := w.Stream();
      assert here + (TableBits(tables[t]) + TablesBits(tables[t + 1..])) == here + TableBits(tables[t]) + TablesBits(tables[t + 1..]);
      SendTable(w, tables[t]);
    }
    assert TablesBits(tables[|tables|..]) == [] by { NoTables(tables[|tables|..]); }
  }

  lemma TableNext(tables: seq<seq<Byte>>, t: nat)
    requires t < |tables| && forall i :: 0 <= i < |tables| ==> tables[i] != []
    ensures TablesBits(tables[t..]) == TableBits(tables[t]) + TablesBits(tables[t + 1..])
  {
    assert tables[t..][1..] == tables[t + 1..];
  }

  lemma NoTables(tables: seq<seq<Byte>>)
    requires tables == []
    ensures TablesBits(tables) == []
  {
  }

  // ---- the codes ----

  ghost predicate CodesAre(code: seq<seq<int>>, tables: seq<seq<Byte>>) {
    && |code| == |tables|
    && forall t :: 0 <= t < |tables| ==>
         |code[t]| >= |tables[t]| && forall i :: 0 <= i < |tables[t]| ==> code[t][i] == Code(tables[t], i)
  }

  /** One selector for every group of 50 symbols, the last one possibly short. */
  ghost predicate Covers(sel: seq<int>, nMTF: nat) {
    GROUP_SIZE * (|sel| - 1) < nMTF <= GROUP_SIZE * |sel|
  }

  method SendCodes(w: BitWriter, mtfv: seq<int>, tables: seq<seq<Byte>>, code: seq<seq<int>>, selector: seq<int>, ghost n: nat)
    requires w.Valid() && Sendable(tables, selector, n, mtfv) && CodesAre(code, tables) && Covers(selector, |mtfv|)
    requires |w.Stream()| + |CodesFrom(tables, selector, n, 0, mtfv)| <= 8 * w.zbits.Length
    modifies w, w.zbits
    ensures w.Valid() && w.zbits == old(w.zbits)
    ensures w.Stream() == old(w.Stream()) + CodesFrom(tables, selector, n, 0, mtfv)
  {
    hide BitWriter.Valid, BitWriter.Stream, CodesFrom, CodeBits, Sendable, CodesAre;
    ghost var all := w.Stream() + Remaining(tables, selector, n, mtfv, 0);
    var selCtr, gs := 0, 0;
    Sending(tables, selector, n, mtfv, 0);
    while gs < |mtfv|
      invariant 0 <= gs <= |mtfv| && selCtr <= |selector|
      invariant gs == GROUP_SIZE * selCtr || (gs == |mtfv| && selCtr == |selector|)
      invariant w.Valid() && w.zbits == old(w.zbits) && w.Stream() + Remaining(tables, selector, n, mtfv, gs) == all
    {
      var ge := gs + GROUP_SIZE - 1;
      if ge >= |mtfv| { ge := |mtfv| - 1; }
      for i := gs to ge + 1
        invariant w.Valid() && w.zbits == old(w.zbits) && w.Stream() + Remaining(tables, selector, n, mtfv, i) == all
      {
        CodeNext(tables, selector, n, mtfv, code, i, selCtr);
        ghost var here, bits := w.Stream(), CodeBits(tables[selector[selCtr]], mtfv[i]);
        ghost var rest := Remaining(tables, selector, n, mtfv, i + 1);
        assert here + (bits + rest) == here + bits + rest;
        w.Put(tables[selector[selCtr]][mtfv[i]], code[selector[selCtr]][mtfv[i]]);
      }
      gs := ge + 1;
      selCtr := selCtr + 1;
    }
    Sending(tables, selector, n, mtfv, |mtfv|);
    assert selCtr == |selector|;
  }

  ghost function Remaining(tables: seq<seq<Byte>>, sel: seq<int>, n: nat, v: seq<int>, i: nat): seq<bool>
    requires Sendable(tables, sel, n, v) && i <= |v|
  {
    CodesFrom(tables, sel, n, i, v[i..])
  }

  lemma Sending(tables: seq<seq<Byte>>, sel: seq<int>, n: nat, v: seq<int>, i: nat)
    requires Sendable(tables, sel, n, v) && i <= |v|
    ensures i == 0 ==> Remaining(tables, sel, n, v, i) == CodesFrom(tables, sel, n, 0, v)
    ensures i == |v| ==> Remaining(tables, sel, n, v, i) == []
  {
    assert v[0..] == v;
  }

  lemma CodeNext(tables: seq<seq<Byte>>, sel: seq<int>, n: nat, v: seq<int>, code: seq<seq<int>>, i: nat, g: nat)
    requires Sendable(tables, sel, n, v) && CodesAre(code, tables) && i < |v| && GROUP_SIZE * g <= i < GROUP_SIZE * g + GROUP_SIZE
    ensures g < |sel| && 0 <= sel[g] < |tables| && |code| == |tables| && 0 <= v[i] < |tables[sel[g]]| <= |code[sel[g]]|
    ensures var lens := tables[sel[g]];
            && 1 <= lens[v[i]] <= MAX_LEN && 0 <= code[sel[g]][v[i]] < Pow2(lens[v[i]])
            && CodeBits(lens, v[i]) == ToBits(code[sel[g]][v[i]], lens[v[i]])
            && Remaining(tables, sel, n, v, i) == CodeBits(lens, v[i]) + Remaining(tables, sel, n, v, i + 1)
  {
    hide Code;
    assert i / GROUP_SIZE == g;
    assert v[i..][1..] == v[i + 1..] && v[i..][0] == v[i];
    CodeFits(tables[sel[g]], v[i], MAX_LEN);
  }
}
