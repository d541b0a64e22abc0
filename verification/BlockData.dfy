/** The grouped, Huffman-coded symbols of a block, and the block as a whole (libc/decompress.c:74-102, 240-492). */
module BlockData {
  import opened Words
  import opened BitStream
  import opened CanonicalCode
  import opened MoveToFront
  import opened MtfCoding
  import opened MtfEncoder
  import opened BlockFormat

  // ---- grouped symbols ----

  /** Coding tables for an alphabet of n bytes in use, and the table each group of symbols is coded with. */
  ghost predicate Coding(tables: seq<seq<Byte>>, sel: seq<int>, n: nat) {
    && 1 <= n <= 256
    && (forall t :: 0 <= t < |tables| ==> |tables[t]| == n + 2 && Coded(tables[t]))
    && (forall g :: 0 <= g < |sel| ==> 0 <= sel[g] < |tables|)
  }

  ghost function CodesFrom(tables: seq<seq<Byte>>, sel: seq<int>, n: nat, k: nat, v: seq<int>): seq<bool>
    requires Coding(tables, sel, n) && k + |v| <= GROUP_SIZE * |sel|
    requires forall i :: 0 <= i < |v| ==> 0 <= v[i] < n + 2
    decreases |v|
  {
    if v == [] then [] else CodeBits(tables[sel[k / GROUP_SIZE]], v[0]) + CodesFrom(tables, sel, n, k + 1, v[1..])
  }

  /** GET_MTF_VAL: symbol number k of the block. */
  ghost function NextSymbol(tables: seq<seq<Byte>>, sel: seq<int>, n: nat, k: nat, z: seq<bool>): (r: Read<nat>)
    requires Coding(tables, sel, n)
    ensures r.Got? ==> r.value < n + 2 && |r.rest| < |z|
  {
    if k / GROUP_SIZE >= |sel| then Bad else DecodeSymbol(tables[sel[k / GROUP_SIZE]], z)
  }

  /** The first n entries of the list are the n codes in use. */
  ghost predicate Ranked(list: seq<int>, n: nat) {
    0 < n <= |list| && forall i :: 0 <= i < n ==> 0 <= list[i] < n
  }

  lemma RankedMoved(list: seq<int>, n: nat, j: nat)
    requires Ranked(list, n) && j < n
    ensures Ranked(MovedToFront(list, j), n)
  {
    var moved := MovedToFront(list, j);
    forall i | 0 <= i < n
      ensures 0 <= moved[i] < n
    {
      assert moved[i] == if i == 0 then list[j] else if i <= j then list[i - 1] else list[i];
    }
  }

  /** The decoding loop, reading each symbol as it goes: see Undo for the parameters. */
  ghost function DecodeData(list: seq<int>, tables: seq<seq<Byte>>, sel: seq<int>, n: nat, k: nat, z: seq<bool>,
                            acc: nat, unit: nat, room: nat): (r: Read<seq<int>>)
    requires Coding(tables, sel, n) && Ranked(list, n)
    ensures r.Got? ==> |r.rest| <= |z| && |r.value| <= room && forall i :: 0 <= i < |r.value| ==> 0 <= r.value[i] < n
    decreases |z|
  {
    match NextSymbol(tables, sel, n, k, z)
    case Short => Short
    case Bad => Bad
    case Got(s, rest) =>
      if s == RUNA || s == RUNB then
        if unit >= RUN_LIMIT then Bad
        else DecodeData(list, tables, sel, n, k + 1, rest, acc + (s + 1) * unit, 2 * unit, room)
      else if acc > room then Bad
      else if s == n + 1 then Got(Repeat(list[0], acc), rest)
      else if acc == room then Bad
      else
        RankedMoved(list, n, s - 1);
        Prepend(Repeat(list[0], acc) + [list[s - 1]],
                DecodeData(MovedToFront(list, s - 1), tables, sel, n, k + 1, rest, 0, 1, room - acc - 1))
  }

  ghost predicate EndsWith(v: seq<int>, eob: int) {
    v != [] && v[|v| - 1] == eob && forall i :: 0 <= i < |v| - 1 ==> v[i] != eob
  }

  ghost predicate GoodCodes(tables: seq<seq<Byte>>) {
    forall t :: 0 <= t < |tables| ==> PrefixCode(tables[t], MAX_LEN)
  }

  /** If a symbol sequence is undone to `out`, then so are its codes, whatever follows them in the stream. */
  lemma {:induction false} DataRoundTrip(list: seq<int>, tables: seq<seq<Byte>>, sel: seq<int>, n: nat, k: nat, v: seq<int>,
                                         z: seq<bool>, acc: nat, unit: nat, room: nat, out: seq<int>)
    requires Coding(tables, sel, n) && GoodCodes(tables) && Ranked(list, n) && k + |v| <= GROUP_SIZE * |sel|
    requires (forall i :: 0 <= i < |v| ==> 0 <= v[i] < n + 2) && EndsWith(v, n + 1)
    requires Undo(list, v, n + 1, acc, unit, room) == Some(out)
    ensures DecodeData(list, tables, sel, n, k, CodesFrom(tables, sel, n, k, v) + z, acc, unit, room) == Got(out, z)
    decreases |v|
  {
    hide CodesFrom, NextSymbol, Coding, Ranked, MovedToFront, Repeat, GoodCodes, EndsWith;
    var s, t := v[0], v[1..];
    var w := CodesFrom(tables, sel, n, k + 1, t) + z;
    SymbolRead(tables, sel, n, k, v, z);
    EndsLater(v, n + 1);
    if |v| == 1 {
      assert w == z by { NoCodes(tables, sel, n, k + 1); }
    } else {
      if s == RUNA || s == RUNB {
        DataRoundTrip(list, tables, sel, n, k + 1, t, z, acc + (s + 1) * unit, 2 * unit, room, out);
      } else {
        var moved := MovedToFront(list, s - 1);
        RankedMoved(list, n, s - 1);
        var r := Undo(moved, t, n + 1, 0, 1, room - acc - 1);
        DataRoundTrip(moved, tables, sel, n, k + 1, t, z, 0, 1, room - acc - 1, r.value);
      }
    }
  }

  lemma EndsLater(v: seq<int>, eob: int)
    requires EndsWith(v, eob)
    ensures |v| == 1 ==> v[0] == eob && v[1..] == []
    ensures |v| > 1 ==> v[0] != eob && EndsWith(v[1..], eob)
  {
  }

  lemma NoCodes(tables: seq<seq<Byte>>, sel: seq<int>, n: nat, k: nat)
    requires Coding(tables, sel, n) && k <= GROUP_SIZE * |sel|
    ensures CodesFrom(tables, sel, n, k, []) == []
  {
  }

  lemma SymbolRead(tables: seq<seq<Byte>>, sel: seq<int>, n: nat, k: nat, v: seq<int>, z: seq<bool>)
    requires Coding(tables, sel, n) && GoodCodes(tables) && v != [] && k + |v| <= GROUP_SIZE * |sel|
    requires forall i :: 0 <= i < |v| ==> 0 <= v[i] < n + 2
    ensures var w := CodesFrom(tables, sel, n, k + 1, v[1..]) + z;
            NextSymbol(tables, sel, n, k, CodesFrom(tables, sel, n, k, v) + z) == Got(v[0], w)
  {
    var w := CodesFrom(tables, sel, n, k + 1, v[1..]) + z;
    var lens := tables[sel[k / GROUP_SIZE]];
    assert CodesFrom(tables, sel, n, k, v) + z == CodeBits(lens, v[0]) + w;
    DecodeCode(lens, v[0], w);
  }

  // ---- the block ----

  datatype Block = Block(crc: nat, randomised: bool, origPtr: nat, column: seq<Byte>)

  /** The bytes that a sequence of codes stands for, u listing the bytes in use. */
  ghost function Named(u: seq<int>, col: seq<int>): (l: seq<Byte>)
    requires forall i :: 0 <= i < |u| ==> 0 <= u[i] < 256
    requires forall i :: 0 <= i < |col| ==> 0 <= col[i] < |u|
    ensures |l| == |col| && forall i :: 0 <= i < |col| ==> l[i] == u[col[i]]
  {
    seq(|col|, i requires 0 <= i < |col| => u[col[i]])
  }

  /** What the decoder's list starts as. */
  lemma IotaRanked(n: nat)
    requires 0 < n <= 256
    ensures Ranked(Iota(256), n)
  {
  }

  ghost function ParseColumn(used: seq<bool>, tables: seq<seq<Byte>>, sel: seq<int>, level: nat, crc: nat, randomised: bool,
                             origPtr: nat, z: seq<bool>): (r: Read<Block>)
    requires |used| == 256 && Coding(tables, sel, |Used(used, 256)|)
    ensures r.Got? ==> r.value.origPtr < |r.value.column| <= 100000 * level && |r.rest| <= |z| && r.value.crc == crc
  {
    var n := |Used(used, 256)|;
    IotaRanked(n);
    match DecodeData(Iota(256), tables, sel, n, 0, z, 0, 1, 100000 * level)
    case Got(col, rest) =>
      if origPtr >= |col| then Bad else Got(Block(crc, randomised, origPtr, Named(Used(used, 256), col)), rest)
    case Short => Short
    case Bad => Bad
  }

  /** Selectors beyond the 18002 that can be used are read and dropped. */
  ghost function Kept(mtf: seq<nat>): seq<nat> {
    if |mtf| > MAX_SELECTORS then mtf[..MAX_SELECTORS] else mtf
  }

  ghost function ParseCoding(used: seq<bool>, level: nat, crc: nat, randomised: bool, origPtr: nat, z: seq<bool>): (r: Read<Block>)
    requires |used| == 256 && 0 < |Used(used, 256)|
    ensures r.Got? ==> r.value.origPtr < |r.value.column| <= 100000 * level && |r.rest| <= |z| && r.value.crc == crc
  {
    if |z| < 3 then Short
    else
      var nGroups := FromBits(z[..3]);
      if nGroups < 2 || nGroups > MAX_GROUPS then Bad
      else if |z| < 18 then Short
      else
        var nSelectors := FromBits(z[3..18]);
        if nSelectors < 1 then Bad
        else
          match ParseUnaries(z[18..], nSelectors, nGroups)
          case Short => Short
          case Bad => Bad
          case Got(mtf, rest) =>
            var sel := SelectorUndo(Iota(nGroups), Kept(mtf));
            match ParseTables(nGroups, |Used(used, 256)| + 2, rest)
            case Short => Short
            case Bad => Bad
            case Got(tables, rest') => ParseColumn(used, tables, sel, level, crc, randomised, origPtr, rest')
  }

  /** A block from its CRC on: everything between the block magic and the next one. */
  ghost function ParseBody(level: nat, z: seq<bool>): (r: Read<Block>)
    ensures r.Got? ==> r.value.origPtr < |r.value.column| <= 100000 * level && |r.rest| <= |z| && r.value.crc < Pow2(32)
  {
    if |z| < 57 then Short
    else
      var crc, randomised, origPtr := FromBits(z[..32]), z[32], FromBits(z[33..57]);
      FromBitsBound(z[..32]);
      if origPtr > 10 + 100000 * level then Bad
      else
        match ParseMap(z[57..])
        case Short => Short
        case Bad => Bad
        case Got(used, rest) =>
          if |Used(used, 256)| == 0 then Bad else ParseCoding(used, level, crc, randomised, origPtr, rest)
  }

  /** `col` numbers the bytes of column `l`, all of them in use. */
  ghost predicate Ranks(used: seq<bool>, l: seq<Byte>, col: seq<int>) {
    && |used| == 256 && |col| == |l| && 0 < |Used(used, 256)|
    && forall i :: 0 <= i < |l| ==> 0 <= col[i] < |Used(used, 256)| && Used(used, 256)[col[i]] == l[i]
  }

  /** The tables and selectors that sendMTFValues may use for the symbols `v`. */
  ghost predicate Sendable(tables: seq<seq<Byte>>, sel: seq<int>, n: nat, v: seq<int>) {
    && Coding(tables, sel, n) && GoodCodes(tables) && 2 <= |tables| <= MAX_GROUPS
    && 1 <= |sel| <= MAX_SELECTORS && |v| <= GROUP_SIZE * |sel|
    && forall i :: 0 <= i < |v| ==> 0 <= v[i] < n + 2
  }

  ghost function CodingBits(tables: seq<seq<Byte>>, sel: seq<int>, n: nat, v: seq<int>): seq<bool>
    requires Sendable(tables, sel, n, v)
  {
    SelectorsListed(tables, sel, n);
    ToBits(|tables|, 3) + ToBits(|sel|, 15) + UnaryBits(SelectorMtf(Iota(|tables|), sel)) + TablesBits(tables)
    + CodesFrom(tables, sel, n, 0, v)
  }

  lemma SelectorsListed(tables: seq<seq<Byte>>, sel: seq<int>, n: nat)
    requires Coding(tables, sel, n)
    ensures forall i :: 0 <= i < |sel| ==> sel[i] in Iota(|tables|)
  {
    IotaHas(|tables|);
  }

  /** The block as compressBlock writes it, from the CRC on. */
  ghost function BodyBits(crc: nat, origPtr: nat, used: seq<bool>, tables: seq<seq<Byte>>, sel: seq<int>, v: seq<int>): seq<bool>
    requires |used| == 256 && Sendable(tables, sel, |Used(used, 256)|, v)
  {
    ToBits(crc, 32) + [false] + ToBits(origPtr, 24) + MapBits(used) + CodingBits(tables, sel, |Used(used, 256)|, v)
  }

  lemma ColumnRoundTrip(used: seq<bool>, l: seq<Byte>, col: seq<int>, tables: seq<seq<Byte>>, sel: seq<int>, level: nat,
                        crc: nat, origPtr: nat, z: seq<bool>)
    requires Ranks(used, l, col) && origPtr < |l| <= 100000 * level && level <= 9
    requires Sendable(tables, sel, |Used(used, 256)|, ColumnSymbols(col, |Used(used, 256)|))
    ensures var n := |Used(used, 256)|;
            ParseColumn(used, tables, sel, level, crc, false, origPtr, CodesFrom(tables, sel, n, 0, ColumnSymbols(col, n)) + z)
            == Got(Block(crc, false, origPtr, l), z)
  {
    hide CodesFrom, DecodeData, Undo, Symbols, GoodCodes, Coding, Used;
    var n := |Used(used, 256)|;
    var v, tail := ColumnSymbols(col, n), Iota(256)[n..];
    IotaHas(n);
    IotaRanked(n);
    assert Iota(n) + tail == Iota(256);
    SymbolsRoundTrip(Iota(n), tail, col, 0, n + 1, 100000 * level);
    assert Repeat(Iota(n)[0], 0) + col == col;
    SymbolsEnd(Iota(n), col, 0, n + 1);
    DataRoundTrip(Iota(256), tables, sel, n, 0, v, z, 0, 1, 100000 * level, col);
    assert Named(Used(used, 256), col) == l;
  }

  lemma {:induction false} SymbolsEnd(list: seq<int>, col: seq<int>, z: nat, eob: int)
    requires list != [] && (forall x :: x in col ==> x in list) && eob > |list|
    ensures EndsWith(Symbols(list, col, z, eob), eob)
    decreases |col|
  {
    if col != [] {
      if list[0] == col[0] {
        SymbolsEnd(list, col[1..], z + 1, eob);
      } else {
        var j := IndexOf(list, col[0]);
        MovedKeeps(list, j);
        SymbolsEnd(MovedToFront(list, j), col[1..], 0, eob);
      }
    }
  }

  lemma Sections(a: seq<bool>, b: seq<bool>, c: seq<bool>, d: seq<bool>, e: seq<bool>, z: seq<bool>)
    requires |a| == 3 && |b| == 15
    ensures var w := a + b + c + d + e + z; w[..3] == a && w[3..18] == b && w[18..] == c + (d + (e + z))
  {
    var w, t := a + b + c + d + e + z, c + (d + (e + z));
    assert w == a + (b + t);
  }

  lemma CodingRoundTrip(used: seq<bool>, l: seq<Byte>, col: seq<int>, tables: seq<seq<Byte>>, sel: seq<int>, level: nat,
                        crc: nat, origPtr: nat, z: seq<bool>)
    requires Ranks(used, l, col) && origPtr < |l| <= 100000 * level && level <= 9
    requires Sendable(tables, sel, |Used(used, 256)|, ColumnSymbols(col, |Used(used, 256)|))
    ensures var n := |Used(used, 256)|;
            ParseCoding(used, level, crc, false, origPtr, CodingBits(tables, sel, n, ColumnSymbols(col, n)) + z)
            == Got(Block(crc, false, origPtr, l), z)
  {
    hide ToBits, FromBits, UnaryBits, SelectorMtf, SelectorUndo, TablesBits, CodesFrom, ParseUnaries, ParseTables, ParseColumn;
    hide ColumnSymbols, Used, GoodCodes, Iota;
    var n := |Used(used, 256)|;
    var codes := CodesFrom(tables, sel, n, 0, ColumnSymbols(col, n));
    SelectorsListed(tables, sel, n);
    var mtf := SelectorMtf(Iota(|tables|), sel);
    var w := CodingBits(tables, sel, n, ColumnSymbols(col, n)) + z;
    var rest' := codes + z;
    var rest := TablesBits(tables) + rest';
    FromToBits(|tables|, 3);
    FromToBits(|sel|, 15);
    Sections(ToBits(|tables|, 3), ToBits(|sel|, 15), UnaryBits(mtf), TablesBits(tables), codes, z);
    UnariesRoundTrip(mtf, |tables|, rest);
    SelectorRoundTrip(Iota(|tables|), sel);
    TablesRoundTrip(tables, n + 2, rest');
    ColumnRoundTrip(used, l, col, tables, sel, level, crc, origPtr, z);
  }

  /** What compressBlock writes, the decoder reads back: CRC, origin pointer and column, and nothing beyond it. */
  lemma BodyRoundTrip(used: seq<bool>, l: seq<Byte>, col: seq<int>, tables: seq<seq<Byte>>, sel: seq<int>, level: nat,
                      crc: nat, origPtr: nat, z: seq<bool>)
    requires Ranks(used, l, col) && origPtr < |l| <= 100000 * level && 1 <= level <= 9 && crc < 0x1_0000_0000
    requires Sendable(tables, sel, |Used(used, 256)|, ColumnSymbols(col, |Used(used, 256)|))
    ensures ParseBody(level, BodyBits(crc, origPtr, used, tables, sel, ColumnSymbols(col, |Used(used, 256)|)) + z)
            == Got(Block(crc, false, origPtr, l), z)
  {
    hide ToBits, FromBits, MapBits, ParseMap, CodingBits, ParseCoding, ColumnSymbols, Used, Sendable;
    var n := |Used(used, 256)|;
    var v := ColumnSymbols(col, n);
    var w := BodyBits(crc, origPtr, used, tables, sel, v) + z;
    var rest := CodingBits(tables, sel, n, v) + z;
    Pow2Values();
    FromToBits(crc, 32);
    FromToBits(origPtr, 24);
    assert w[..32] == ToBits(crc, 32) && !w[32] && w[33..57] == ToBits(origPtr, 24) && w[57..] == MapBits(used) + rest;
    MapRoundTrip(used, rest);
    CodingRoundTrip(used, l, col, tables, sel, level, crc, origPtr, z);
  }
}
