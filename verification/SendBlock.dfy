/** Compressing one block into the bit stream: sendMTFValues and compressBlock (libc/compress.c:243-662). */
module SendBlock {
  import opened Words
  import opened Counting
  import opened BitStream
  import opened CanonicalCode
  import opened CodeTables
  import opened HuffmanTree
  import opened HuffmanLengths
  import opened MoveToFront
  import opened MtfCoding
  import opened MtfEncoder
  import opened BlockFormat
  import opened BlockData
  import opened SendValues
  import opened TableChoice

  // ---- complete lengths make a prefix code ----

  lemma {:induction false} KraftShares(lens: seq<Byte>, k: nat)
    requires k <= |lens| && forall i :: 0 <= i < |lens| ==> 1 <= lens[i] <= MAX_CHOSEN
    ensures Within(lens[..k], MAX_LEN) && Total(Shares(lens), k) == Kraft(lens[..k], MAX_LEN) * Pow2(KRAFT_BITS - MAX_LEN)
  {
    hide Pow2;
    if k == 0 {
      assert lens[..0] == [];
    } else {
      KraftShares(lens, k - 1);
      var x := lens[k - 1];
      assert lens[..k][..k - 1] == lens[..k - 1];
      Pow2Add(MAX_LEN - x, KRAFT_BITS - MAX_LEN);
      Spread(Kraft(lens[..k - 1], MAX_LEN), Pow2(MAX_LEN - x), Pow2(KRAFT_BITS - MAX_LEN));
    }
  }

  /** The lengths MakeCodeLengths returns can be coded: their Kraft sum is exactly one. */
  lemma CompleteIsPrefixCode(lens: seq<Byte>)
    requires 0 < |lens| <= MAX_ALPHA && CompleteLengths(lens, MAX_CHOSEN)
    ensures Coded(lens) && PrefixCode(lens, MAX_LEN)
  {
    hide Pow2;
    KraftShares(lens, |lens|);
    assert lens[..|lens|] == lens;
    Pow2Add(MAX_LEN, KRAFT_BITS - MAX_LEN);
    var u := Pow2(KRAFT_BITS - MAX_LEN);
    if Kraft(lens, MAX_LEN) > Pow2(MAX_LEN) {
      Scale(Pow2(MAX_LEN) + 1, Kraft(lens, MAX_LEN), u);
      Spread(Pow2(MAX_LEN), 1, u);
    }
  }

  // ---- how long the section is ----

  /** No code is longer than 17 bits. */
  ghost predicate ShortCodes(tables: seq<seq<Byte>>) {
    forall t, i :: 0 <= t < |tables| && 0 <= i < |tables[t]| ==> 1 <= tables[t][i] <= MAX_CHOSEN
  }

  lemma {:induction false} GroupBitsLength(used: seq<bool>, i: nat)
    requires |used| == 256 && i <= 16
    ensures |GroupBits(used, i)| <= 256 - 16 * i
    decreases 16 - i
  {
    if i < 16 { GroupBitsLength(used, i + 1); }
  }

  lemma {:induction false} UnaryBitsLength(mtf: seq<nat>, g: nat)
    requires forall i :: 0 <= i < |mtf| ==> mtf[i] < g
    ensures |UnaryBits(mtf)| <= g * |mtf|
  {
    if mtf != [] {
      UnaryBitsLength(mtf[1..], g);
      assert g * |mtf| == g * (|mtf| - 1) + g;
    }
  }

  lemma {:induction false} DeltaLength(a: nat, b: nat)
    ensures |Delta(a, b)| == 1 + 2 * (if a < b then b - a else a - b)
    decreases if a < b then b - a else a - b
  {
    if a < b { DeltaLength(a + 1, b); } else if a > b { DeltaLength(a - 1, b); }
  }

  lemma {:induction false} DeltaBitsLength(curr: nat, lens: seq<Byte>)
    requires 1 <= curr <= MAX_CHOSEN && forall i :: 0 <= i < |lens| ==> 1 <= lens[i] <= MAX_CHOSEN
    ensures |DeltaBits(curr, lens)| <= 33 * |lens|
    decreases |lens|
  {
    if lens != [] {
      DeltaLength(curr, lens[0]);
      DeltaBitsLength(lens[0], lens[1..]);
    }
  }

  const TABLE_LIMIT := 5 + 33 * MAX_ALPHA

  lemma {:induction false} TablesBitsLength(tables: seq<seq<Byte>>)
    requires ShortCodes(tables) && forall t :: 0 <= t < |tables| ==> 0 < |tables[t]| <= MAX_ALPHA
    ensures |TablesBits(tables)| <= TABLE_LIMIT * |tables|
  {
    hide DeltaBits, ToBits;
    if tables != [] {
      DeltaBitsLength(tables[0][0], tables[0]);
      var rest := tables[1..];
      assert forall t :: 0 <= t < |rest| ==> rest[t] == tables[t + 1];
      TablesBitsLength(rest);
    }
  }

  lemma {:induction false} CodesLength(tables: seq<seq<Byte>>, sel: seq<int>, n: nat, k: nat, v: seq<int>)
    requires Coding(tables, sel, n) && k + |v| <= GROUP_SIZE * |sel| && ShortCodes(tables)
    requires forall i :: 0 <= i < |v| ==> 0 <= v[i] < n + 2
    ensures |CodesFrom(tables, sel, n, k, v)| <= MAX_CHOSEN * |v|
    decreases |v|
  {
    if v != [] {
      CodesLength(tables, sel, n, k + 1, v[1..]);
    }
  }

  /** Bits that suffice for the mapping table, selectors, coding tables and codes of a block. */
  function SectionLimit(nMTF: nat): nat {
    272 + 18 + MAX_GROUPS * MAX_SELECTORS + MAX_GROUPS * TABLE_LIMIT + MAX_CHOSEN * nMTF
  }

  lemma SectionFits(used: seq<bool>, tables: seq<seq<Byte>>, sel: seq<int>, n: nat, v: seq<int>)
    requires |used| == 256 && Sendable(tables, sel, n, v) && ShortCodes(tables)
    ensures |MapBits(used)| + |CodingBits(tables, sel, n, v)| <= SectionLimit(|v|)
  {
    hide GroupBits, UnaryBits, TablesBits, CodesFrom, SelectorMtf, PrefixCode, GoodCodes, ToBits, ShortCodes, Coded, CodingBits, Pow2, Iota;
    GroupBitsLength(used, 0);
    SelectorsListed(tables, sel, n);
    UnaryBitsLength(SelectorMtf(Iota(|tables|), sel), |tables|);
    Scale(|tables|, MAX_GROUPS, |sel|);
    TablesBitsLength(tables);
    CodesLength(tables, sel, n, 0, v);
    CodingLength(tables, sel, n, v);
  }

  lemma CodingLength(tables: seq<seq<Byte>>, sel: seq<int>, n: nat, v: seq<int>)
    requires Sendable(tables, sel, n, v) && forall i :: 0 <= i < |sel| ==> sel[i] in Iota(|tables|)
    ensures |CodingBits(tables, sel, n, v)|
            == 18 + |UnaryBits(SelectorMtf(Iota(|tables|), sel))| + |TablesBits(tables)| + |CodesFrom(tables, sel, n, 0, v)|
  {
    hide UnaryBits, TablesBits, CodesFrom, SelectorMtf, PrefixCode, GoodCodes, ToBits, Coded, Pow2, Iota;
  }

  // ---- sendMTFValues ----

  method NewLengths() returns (len: seq<Lengths>)
    ensures Six(len) && fresh(len)
  {
    len := [];
    for t := 0 to MAX_GROUPS
      invariant |len| == t && fresh(len) && Distinct(len) && forall u :: 0 <= u < t ==> len[u].Length == MAX_ALPHA
    {
      var l := new Byte[MAX_ALPHA](_ => GREATER_ICOST);
      len := len + [l];
    }
  }

  /** Assign the codes of one table. */
  method CodesOf(length: array<Byte>, alphaSize: nat) returns (code: seq<int>)
    requires 0 < alphaSize <= length.Length && Coded(length[..alphaSize])
    ensures |code| == alphaSize && forall i :: 0 <= i < alphaSize ==> code[i] == Code(length[..alphaSize], i)
  {
    hide Code, Coded, Spans;
    var minLen, maxLen := Extremes(length, alphaSize);
    var c := new int[alphaSize];
    AssignCodes(c, length, minLen, maxLen, alphaSize);
    code := c[..];
  }

  /** The chosen tables as values, with their codes. */
  method Tabulate(len: seq<Lengths>, nGroups: nat, alphaSize: nat) returns (tables: seq<seq<Byte>>, code: seq<seq<int>>)
    requires Six(len) && nGroups <= MAX_GROUPS && 0 < alphaSize <= MAX_ALPHA && AllComplete(len, nGroups, alphaSize)
    ensures |tables| == nGroups && CodesAre(code, tables) && GoodCodes(tables) && ShortCodes(tables)
    ensures forall t :: 0 <= t < nGroups ==> |tables[t]| == alphaSize && Coded(tables[t]) && tables[t] == len[t][..alphaSize]
  {
    hide Code, Coded, PrefixCode, CompleteLengths;
    tables, code := [], [];
    for t := 0 to nGroups
      invariant |tables| == t && CodesAre(code, tables) && GoodCodes(tables) && ShortCodes(tables)
      invariant forall u :: 0 <= u < t ==> |tables[u]| == alphaSize && Coded(tables[u]) && tables[u] == len[u][..alphaSize]
    {
      ghost var lens := len[t][..alphaSize];
      CompleteIsPrefixCode(lens);
      CompleteShort(lens);
      var c := CodesOf(len[t], alphaSize);
      tables, code := tables + [len[t][..alphaSize]], code + [c];
    }
  }

  lemma CompleteShort(lens: seq<Byte>)
    requires CompleteLengths(lens, MAX_CHOSEN)
    ensures forall i :: 0 <= i < |lens| ==> 1 <= lens[i] <= MAX_CHOSEN
  {
  }

  /** The tables in use after the last round. */
  lemma LastRound(rounds: seq<seq<seq<Byte>>>, sels: seq<seq<int>>, v: seq<int>, tables: seq<seq<Byte>>, alphaSize: nat)
    requires Rounds(rounds, sels, v, |tables|, alphaSize) && sels != [] && tables <= rounds[|sels|]
    ensures Fitted(tables, sels[|sels| - 1], v, alphaSize)
  {
    hide BestSelectors, Suits, TallyOf;
    var k := |sels| - 1;
    assert Improves(rounds[k], rounds[k + 1], v, sels[k], |tables|, alphaSize);
    assert Improves(rounds[k], tables, v, sels[k], |tables|, alphaSize);
  }

  /** sendMTFValues: it writes a section that can be read back, with tables made for the symbols that are coded with them. */
  method SendMTFValues(w: BitWriter, inUse: seq<bool>, mtfv: seq<int>, mtfFreq: seq<int>, nInUse: nat)
    returns (ghost tables: seq<seq<Byte>>, ghost selector: seq<int>)
    requires w.Valid() && |inUse| == 256 && |mtfFreq| == MAX_ALPHA && 1 <= nInUse <= 256
    requires InAlphabet(mtfv, nInUse + 2) && 0 < |mtfv| <= MAX_SYMBOLS
    requires |w.Stream()| + SectionLimit(|mtfv|) <= 8 * w.zbits.Length
    modifies w, w.zbits
    ensures w.Valid() && w.zbits == old(w.zbits) && Sendable(tables, selector, nInUse, mtfv) && ShortCodes(tables)
    ensures Fitted(tables, selector, mtfv, nInUse + 2)
    ensures w.Stream() == old(w.Stream()) + MapBits(inUse) + CodingBits(tables, selector, nInUse, mtfv)
  {
    hide BitWriter.Valid, BitWriter.Stream, MapBits, UnaryBits, TablesBits, CodesFrom, SelectorMtf, CompleteLengths, CodesAre;
    hide PrefixCode, ToBits, Pow2, Coded, Rounds, Initial, Fitted;
    var alphaSize := nInUse + 2;
    var len := NewLengths();
    ghost var rounds, sels;
    var nGroups, sel;
    nGroups, sel, rounds, sels := ChooseTables(len, mtfv, mtfFreq, alphaSize);
    var tabs, code := Tabulate(len, nGroups, alphaSize);
    LastRound(rounds, sels, mtfv, tabs, alphaSize);
    tables, selector := tabs, sel;
    assert Sendable(tabs, sel, nInUse, mtfv);
    SectionFits(inUse, tabs, sel, nInUse, mtfv);
    SelectorsListed(tabs, sel, nInUse);
    ghost var was := w.Stream();
    SendMap(w, inUse);
    var selectorMtf := SelectorsToFront(sel, nGroups);
    SendCoding(w, mtfv, tabs, code, sel, selectorMtf, nInUse);
  }

  method SendCoding(w: BitWriter, mtfv: seq<int>, tables: seq<seq<Byte>>, code: seq<seq<int>>, selector: seq<int>,
                    selectorMtf: seq<nat>, ghost n: nat)
    requires w.Valid() && Sendable(tables, selector, n, mtfv) && CodesAre(code, tables) && Covers(selector, |mtfv|)
    requires Listed(Iota(|tables|), selector) && selectorMtf == SelectorRest(Iota(|tables|), selector)
    requires |w.Stream()| + |CodingBits(tables, selector, n, mtfv)| <= 8 * w.zbits.Length
    modifies w, w.zbits
    ensures w.Valid() && w.zbits == old(w.zbits)
    ensures w.Stream() == old(w.Stream()) + CodingBits(tables, selector, n, mtfv)
  {
    hide BitWriter.Valid, BitWriter.Stream, UnaryBits, TablesBits, CodesFrom, SelectorMtf, CodesAre;
    hide PrefixCode, ToBits, Coded, GoodCodes;
    ghost var was, unary := w.Stream(), UnaryBits(selectorMtf);
    ghost var groups, count := ToBits(|tables|, 3), ToBits(|selector|, 15);
    ghost var codes := CodesFrom(tables, selector, n, 0, mtfv);
    assert CodingBits(tables, selector, n, mtfv) == groups + count + unary + TablesBits(tables) + codes;
    FieldWidths();
    w.Put(3, |tables|);
    w.Put(15, |selector|);
    SendSelectors(w, selectorMtf);
    SendTables(w, tables);
    SendCodes(w, mtfv, tables, code, selector, n);
    AllAfter(was, groups, count, unary, TablesBits(tables), codes);
  }

  lemma AllAfter(a: seq<bool>, b: seq<bool>, c: seq<bool>, d: seq<bool>, e: seq<bool>, f: seq<bool>)
    ensures a + b + c + d + e + f == a + (b + c + d + e + f)
  {
  }

  lemma FieldWidths()
    ensures Pow2(3) == 8 && Pow2(15) == 32768
  {
    Pow2Add(8, 7);
    Pow2Values();
  }
}
