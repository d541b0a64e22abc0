/**
 * The bit layout of a compressed block: what sendMTFValues writes and BZ2_decompress reads
 * (libc/compress.c:461-594, libc/decompress.c:266-492), and that reading inverts writing.
 */
module BlockFormat {
  import opened Words
  import opened BitStream
  import opened CanonicalCode
  import opened MoveToFront
  import opened MtfCoding

  const GROUP_SIZE := 50
  const MAX_SELECTORS := 18002
  const MAX_GROUPS := 6

  ghost function Prepend<T>(x: seq<T>, r: Read<seq<T>>): Read<seq<T>> {
    match r
    case Got(v, rest) => Got(x + v, rest)
    case Short => Short
    case Bad => Bad
  }

  // ---- the mapping table ----

  ghost predicate AnyUsed(used: seq<bool>, i: nat)
    requires |used| == 256 && i < 16
  {
    exists j :: 16 * i <= j < 16 * i + 16 && used[j]
  }

  ghost function Flags(used: seq<bool>): (f: seq<bool>)
    requires |used| == 256
    ensures |f| == 16 && forall i :: 0 <= i < 16 ==> f[i] == AnyUsed(used, i)
  {
    seq(16, i requires 0 <= i < 16 => AnyUsed(used, i))
  }

  ghost function GroupBits(used: seq<bool>, i: nat): seq<bool>
    requires |used| == 256 && i <= 16
    decreases 16 - i
  {
    if i == 16 then []
    else (if AnyUsed(used, i) then used[16 * i..16 * i + 16] else []) + GroupBits(used, i + 1)
  }

  ghost function MapBits(used: seq<bool>): seq<bool>
    requires |used| == 256
  {
    Flags(used) + GroupBits(used, 0)
  }

  ghost function Unused(): (s: seq<bool>)
    ensures |s| == 16 && forall j :: 0 <= j < 16 ==> !s[j]
  {
    seq(16, _ => false)
  }

  ghost function ParseGroups(flags: seq<bool>, i: nat, z: seq<bool>): (r: Read<seq<bool>>)
    requires |flags| == 16 && i <= 16
    ensures r.Got? ==> |r.value| == 256 - 16 * i && |r.rest| <= |z|
    decreases 16 - i
  {
    if i == 16 then Got([], z)
    else if !flags[i] then Prepend(Unused(), ParseGroups(flags, i + 1, z))
    else if |z| < 16 then Short
    else Prepend(z[..16], ParseGroups(flags, i + 1, z[16..]))
  }

  ghost function ParseMap(z: seq<bool>): (r: Read<seq<bool>>)
    ensures r.Got? ==> |r.value| == 256 && |r.rest| <= |z|
  {
    if |z| < 16 then Short else ParseGroups(z[..16], 0, z[16..])
  }

  lemma {:induction false} GroupsRoundTrip(used: seq<bool>, i: nat, z: seq<bool>)
    requires |used| == 256 && i <= 16
    ensures ParseGroups(Flags(used), i, GroupBits(used, i) + z) == Got(used[16 * i..], z)
    decreases 16 - i
  {
    if i == 16 {
      assert GroupBits(used, i) + z == z && used[256..] == [];
    } else {
      GroupsRoundTrip(used, i + 1, z);
      GroupRoundTrip(used, i, GroupBits(used, i + 1), z, used[16 * (i + 1)..]);
    }
  }

  lemma GroupRoundTrip(used: seq<bool>, i: nat, later: seq<bool>, z: seq<bool>, rest: seq<bool>)
    requires |used| == 256 && i < 16 && later == GroupBits(used, i + 1) && rest == used[16 * i + 16..]
    requires ParseGroups(Flags(used), i + 1, later + z) == Got(rest, z)
    ensures ParseGroups(Flags(used), i, GroupBits(used, i) + z) == Got(used[16 * i..], z)
  {
    hide AnyUsed;
    var g := used[16 * i..16 * i + 16];
    assert used[16 * i..] == g + rest;
    if AnyUsed(used, i) {
      assert GroupBits(used, i) + z == g + (later + z);
      GroupRead(Flags(used), i, g, later + z);
    } else {
      assert GroupBits(used, i) + z == later + z by { assert GroupBits(used, i) == later; }
      NoneUsed(used, i);
    }
  }

  lemma NoneUsed(used: seq<bool>, i: nat)
    requires |used| == 256 && i < 16 && !AnyUsed(used, i)
    ensures Unused() == used[16 * i..16 * i + 16]
  {
  }

  lemma GroupRead(flags: seq<bool>, i: nat, g: seq<bool>, w: seq<bool>)
    requires |flags| == 16 && i < 16 && flags[i] && |g| == 16
    ensures ParseGroups(flags, i, g + w) == Prepend(g, ParseGroups(flags, i + 1, w))
  {
    assert (g + w)[..16] == g && (g + w)[16..] == w;
  }

  lemma MapRoundTrip(used: seq<bool>, z: seq<bool>)
    requires |used| == 256
    ensures ParseMap(MapBits(used) + z) == Got(used, z)
  {
    hide Flags, GroupBits, ParseGroups;
    var w := MapBits(used) + z;
    GroupsRoundTrip(used, 0, z);
    assert w[..16] == Flags(used) && w[16..] == GroupBits(used, 0) + z;
  }

  // ---- selectors ----

  ghost function Unary(j: nat): (b: seq<bool>)
    ensures |b| == j + 1
  {
    if j == 0 then [false] else [true] + Unary(j - 1)
  }

  ghost function UnaryBits(mtf: seq<nat>): seq<bool> {
    if mtf == [] then [] else Unary(mtf[0]) + UnaryBits(mtf[1..])
  }

  ghost function ParseUnary(z: seq<bool>, j: nat, nGroups: nat): (r: Read<nat>)
    requires j < nGroups
    ensures r.Got? ==> j <= r.value < nGroups && |r.rest| < |z|
    decreases |z|
  {
    if z == [] then Short
    else if !z[0] then Got(j, z[1..])
    else if j + 1 >= nGroups then Bad
    else ParseUnary(z[1..], j + 1, nGroups)
  }

  ghost function ParseUnaries(z: seq<bool>, n: nat, nGroups: nat): (r: Read<seq<nat>>)
    requires nGroups > 0
    ensures r.Got? ==> |r.rest| <= |z| && |r.value| == n && forall i :: 0 <= i < n ==> r.value[i] < nGroups
    decreases n
  {
    if n == 0 then Got([], z)
    else match ParseUnary(z, 0, nGroups)
      case Got(j, rest) => Prepend([j], ParseUnaries(rest, n - 1, nGroups))
      case Short => Short
      case Bad => Bad
  }

  lemma {:induction false} UnaryRoundTrip(i: nat, j: nat, nGroups: nat, z: seq<bool>)
    requires i <= j < nGroups
    ensures ParseUnary(Unary(j - i) + z, i, nGroups) == Got(j, z)
    decreases j - i
  {
    var w := Unary(j - i) + z;
    if i < j {
      assert w[0] && w[1..] == Unary(j - i - 1) + z;
      UnaryRoundTrip(i + 1, j, nGroups, z);
    } else {
      assert !w[0] && w[1..] == z;
    }
  }

  lemma {:induction false} UnariesRoundTrip(mtf: seq<nat>, nGroups: nat, z: seq<bool>)
    requires nGroups > 0 && forall i :: 0 <= i < |mtf| ==> mtf[i] < nGroups
    ensures ParseUnaries(UnaryBits(mtf) + z, |mtf|, nGroups) == Got(mtf, z)
  {
    if mtf == [] {
      assert UnaryBits(mtf) + z == z;
    } else {
      var w := UnaryBits(mtf[1..]) + z;
      assert UnaryBits(mtf) + z == Unary(mtf[0] - 0) + w;
      UnaryRoundTrip(0, mtf[0], nGroups, w);
      UnariesRoundTrip(mtf[1..], nGroups, z);
      assert mtf == [mtf[0]] + mtf[1..];
    }
  }

  /** Selectors move to front: the positions the encoder writes. */
  ghost function SelectorMtf(list: seq<int>, sel: seq<int>): (mtf: seq<nat>)
    requires forall i :: 0 <= i < |sel| ==> sel[i] in list
    ensures |mtf| == |sel| && forall i :: 0 <= i < |mtf| ==> mtf[i] < |list|
    decreases |sel|
  {
    if sel == [] then []
    else
      var j := IndexOf(list, sel[0]);
      MovedKeeps(list, j);
      assert forall i :: 0 <= i < |sel| - 1 ==> sel[1..][i] == sel[i + 1];
      [j] + SelectorMtf(MovedToFront(list, j), sel[1..])
  }

  ghost function SelectorUndo(list: seq<int>, mtf: seq<nat>): (sel: seq<int>)
    requires forall i :: 0 <= i < |mtf| ==> mtf[i] < |list|
    ensures |sel| == |mtf| && forall i :: 0 <= i < |sel| ==> sel[i] in list
    decreases |mtf|
  {
    if mtf == [] then []
    else
      var moved := MovedToFront(list, mtf[0]);
      assert forall i :: 0 <= i < |mtf| - 1 ==> mtf[1..][i] == mtf[i + 1];
      MovedFrom(list, mtf[0]);
      [list[mtf[0]]] + SelectorUndo(moved, mtf[1..])
  }

  lemma MovedFrom(list: seq<int>, j: nat)
    requires j < |list|
    ensures forall x :: x in MovedToFront(list, j) ==> x in list
  {
  }

  lemma {:induction false} SelectorRoundTrip(list: seq<int>, sel: seq<int>)
    requires forall i :: 0 <= i < |sel| ==> sel[i] in list
    ensures SelectorUndo(list, SelectorMtf(list, sel)) == sel
    decreases |sel|
  {
    if sel != [] {
      var j := IndexOf(list, sel[0]);
      MovedKeeps(list, j);
      var rest := sel[1..];
      assert forall i :: 0 <= i < |rest| ==> rest[i] == sel[i + 1];
      SelectorRoundTrip(MovedToFront(list, j), rest);
      assert SelectorMtf(list, sel)[1..] == SelectorMtf(MovedToFront(list, j), rest);
      assert sel == [sel[0]] + rest;
    }
  }

  // ---- coding tables ----

  ghost function Delta(a: nat, b: nat): seq<bool>
    decreases if a < b then b - a else a - b
  {
    if a < b then [true, false] + Delta(a + 1, b)
    else if a > b then [true, true] + Delta(a - 1, b)
    else [false]
  }

  ghost function DeltaBits(curr: nat, lens: seq<Byte>): seq<bool>
    decreases |lens|
  {
    if lens == [] then [] else Delta(curr, lens[0]) + DeltaBits(lens[0], lens[1..])
  }

  ghost function TableBits(lens: seq<Byte>): seq<bool>
    requires lens != []
  {
    ToBits(lens[0], 5) + DeltaBits(lens[0], lens)
  }

  ghost function TablesBits(tables: seq<seq<Byte>>): seq<bool>
    requires forall t :: 0 <= t < |tables| ==> tables[t] != []
  {
    if tables == [] then [] else TableBits(tables[0]) + TablesBits(tables[1..])
  }

  ghost function ParseLength(curr: int, z: seq<bool>): (r: Read<Byte>)
    ensures r.Got? ==> 1 <= r.value <= MAX_LEN && |r.rest| <= |z|
    decreases |z|
  {
    if curr < 1 || curr > 20 then Bad
    else if z == [] then Short
    else if !z[0] then Got(curr, z[1..])
    else if |z| < 2 then Short
    else ParseLength(if z[1] then curr - 1 else curr + 1, z[2..])
  }

  ghost function ParseLengths(curr: int, n: nat, z: seq<bool>): (r: Read<seq<Byte>>)
    ensures r.Got? ==> |r.rest| <= |z| && |r.value| == n && forall i :: 0 <= i < n ==> 1 <= r.value[i] <= MAX_LEN
    decreases n
  {
    if n == 0 then Got([], z)
    else match ParseLength(curr, z)
      case Got(l, rest) => Prepend([l], ParseLengths(l, n - 1, rest))
      case Short => Short
      case Bad => Bad
  }

  ghost function ParseTable(n: nat, z: seq<bool>): (r: Read<seq<Byte>>)
    ensures r.Got? ==> |r.rest| <= |z| && |r.value| == n && forall i :: 0 <= i < n ==> 1 <= r.value[i] <= MAX_LEN
  {
    if |z| < 5 then Short else ParseLengths(FromBits(z[..5]), n, z[5..])
  }

  ghost function ParseTables(t: nat, n: nat, z: seq<bool>): (r: Read<seq<seq<Byte>>>)
    requires 0 < n <= MAX_ALPHA
    ensures r.Got? ==> |r.rest| <= |z| && |r.value| == t && forall i :: 0 <= i < t ==> |r.value[i]| == n && Coded(r.value[i])
    decreases t
  {
    if t == 0 then Got([], z)
    else match ParseTable(n, z)
      case Got(lens, rest) => Prepend([lens], ParseTables(t - 1, n, rest))
      case Short => Short
      case Bad => Bad
  }

  lemma {:induction false} DeltaRoundTrip(a: nat, b: nat, z: seq<bool>)
    requires 1 <= a <= MAX_LEN && 1 <= b <= MAX_LEN
    ensures ParseLength(a, Delta(a, b) + z) == Got(b, z)
    decreases if a < b then b - a else a - b
  {
    var w := Delta(a, b) + z;
    if a == b {
      assert w[1..] == z;
    } else {
      var c := if a < b then a + 1 else a - 1;
      DeltaRoundTrip(c, b, z);
      assert w[0] && w[1] == (a > b) && w[2..] == Delta(c, b) + z;
    }
  }

  lemma {:induction false} DeltasRoundTrip(curr: nat, lens: seq<Byte>, z: seq<bool>)
    requires 1 <= curr <= MAX_LEN && forall i :: 0 <= i < |lens| ==> 1 <= lens[i] <= MAX_LEN
    ensures ParseLengths(curr, |lens|, DeltaBits(curr, lens) + z) == Got(lens, z)
    decreases |lens|
  {
    if lens == [] {
      assert DeltaBits(curr, lens) + z == z;
    } else {
      var w := DeltaBits(lens[0], lens[1..]) + z;
      assert DeltaBits(curr, lens) + z == Delta(curr, lens[0]) + w;
      DeltaRoundTrip(curr, lens[0], w);
      DeltasRoundTrip(lens[0], lens[1..], z);
      assert lens == [lens[0]] + lens[1..];
    }
  }

  lemma {:induction false} TablesRoundTrip(tables: seq<seq<Byte>>, n: nat, z: seq<bool>)
    requires 0 < n <= MAX_ALPHA && forall t :: 0 <= t < |tables| ==> |tables[t]| == n && Coded(tables[t])
    ensures ParseTables(|tables|, n, TablesBits(tables) + z) == Got(tables, z)
  {
    if tables == [] {
      assert TablesBits(tables) + z == z;
    } else {
      var lens, w := tables[0], TablesBits(tables[1..]) + z;
      TablesRoundTrip(tables[1..], n, z);
      TableRoundTrip(lens, w);
      assert TablesBits(tables) + z == TableBits(lens) + w;
      assert tables == [lens] + tables[1..];
    }
  }

  lemma TableRoundTrip(lens: seq<Byte>, z: seq<bool>)
    requires Coded(lens)
    ensures ParseTable(|lens|, TableBits(lens) + z) == Got(lens, z)
  {
    hide DeltaBits, ParseLengths, ToBits, FromBits;
    var w := TableBits(lens) + z;
    assert lens[0] < Pow2(5);
    FromToBits(lens[0], 5);
    assert w[..5] == ToBits(lens[0], 5) && w[5..] == DeltaBits(lens[0], lens) + z;
    DeltasRoundTrip(lens[0], lens, z);
  }
}
