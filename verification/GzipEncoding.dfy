/**
 * What a compressor that keeps to RFC 1951 and RFC 1952 may write, and that it is read back (libc/gzip.c:60-84, 238-309,
 * 340-651, 653-797). The encodings below are built from the rules of the two standards, not from the tables of the code.
 */
module GzipEncoding {
  import opened Words
  import opened Counting
  import opened BitStream
  import opened CanonicalCode
  import opened Crc
  import opened Endian
  import opened GzipBits
  import opened GzipTree
  import opened GzipInflate
  import opened GzipHistory
  import opened GzipTables
  import opened GzipMembers
  import H = GzipHeader

  // ---- section 3.2.5: lengths and distances ----

  /** Extra bits of symbol 257 + i: none for the first eight, then one more for every four; none for the last. */
  ghost function LengthBits(i: nat): nat {
    if i < 4 || i >= 28 then 0 else i / 4 - 1
  }

  /** The shortest length of symbol 257 + i: one above the longest of the symbol before; the last symbol is 258 alone. */
  ghost function LengthFrom(i: nat): nat {
    if i == 0 then 3 else if i >= 28 then 258 else LengthFrom(i - 1) + Pow2(LengthBits(i - 1))
  }

  ghost function DistanceBits(j: nat): nat {
    if j < 2 then 0 else j / 2 - 1
  }

  ghost function DistanceFrom(j: nat): nat {
    if j == 0 then 1 else DistanceFrom(j - 1) + Pow2(DistanceBits(j - 1))
  }

  lemma ExtraPowers()
    ensures Pow2(0) == 1 && Pow2(1) == 2 && Pow2(2) == 4 && Pow2(3) == 8 && Pow2(4) == 16 && Pow2(5) == 32 && Pow2(6) == 64
    ensures Pow2(7) == 128 && Pow2(8) == 256 && Pow2(9) == 512 && Pow2(10) == 1024 && Pow2(11) == 2048 && Pow2(12) == 4096 && Pow2(13) == 8192
  {
    assert Pow2(0) == 1 && Pow2(1) == 2 && Pow2(2) == 4 && Pow2(3) == 8 && Pow2(4) == 16 && Pow2(5) == 32 && Pow2(6) == 64;
    assert Pow2(7) == 128 && Pow2(8) == 256 && Pow2(9) == 512 && Pow2(10) == 1024;
  }

  lemma LengthSteps(i: nat)
    requires i < 28
    ensures LEN_EXTRA[i] == LengthBits(i) && (i < 27 ==> LEN_BASE[i + 1] == LEN_BASE[i] + Pow2(LEN_EXTRA[i]))
  {
    hide Pow2;
    ExtraPowers();
    if i < 9 {
    } else if i < 18 {
    } else {
    }
  }

  /** The table of lengths is the one the rule gives. */
  lemma {:induction false} LengthLaw(i: nat)
    requires i < 29
    ensures LEN_BASE[i] == LengthFrom(i) && LEN_EXTRA[i] == LengthBits(i)
  {
    if i == 28 {
      assert LEN_BASE[28] == 258 && LEN_EXTRA[28] == 0;
    } else {
      LengthSteps(i);
      if i == 0 {
        assert LEN_BASE[0] == 3;
      } else {
        hide Pow2, LEN_BASE, LEN_EXTRA, LengthBits;
        LengthLaw(i - 1);
        LengthSteps(i - 1);
      }
    }
  }

  lemma DistanceSteps(j: nat)
    requires j < 30
    ensures DIST_EXTRA[j] == DistanceBits(j) && (j < 29 ==> DIST_BASE[j + 1] == DIST_BASE[j] + Pow2(DIST_EXTRA[j]))
  {
    hide Pow2;
    ExtraPowers();
    if j < 10 {
    } else if j < 20 {
    } else {
    }
  }

  lemma {:induction false} DistanceLaw(j: nat)
    requires j < 30
    ensures DIST_BASE[j] == DistanceFrom(j) && DIST_EXTRA[j] == DistanceBits(j)
  {
    DistanceSteps(j);
    if j == 0 {
      assert DIST_BASE[0] == 1;
    } else {
      hide Pow2, DIST_BASE, DIST_EXTRA, DistanceBits;
      DistanceLaw(j - 1);
      DistanceSteps(j - 1);
    }
  }

  /** The symbol for a length: the last one up to i that starts no later. */
  ghost function LengthAt(length: nat, i: nat): (r: nat)
    requires length >= 3
    ensures r <= i && LengthFrom(r) <= length && (r < i ==> length < LengthFrom(r + 1))
  {
    if i == 0 || LengthFrom(i) <= length then i else LengthAt(length, i - 1)
  }

  ghost function DistanceAt(dist: nat, j: nat): (r: nat)
    requires dist >= 1
    ensures r <= j && DistanceFrom(r) <= dist && (r < j ==> dist < DistanceFrom(r + 1))
  {
    if j == 0 || DistanceFrom(j) <= dist then j else DistanceAt(dist, j - 1)
  }

  /** Every length from 3 to 258 has a symbol and a value for its extra bits. */
  lemma LengthFits(length: nat)
    requires 3 <= length <= 258
    ensures var i := LengthAt(length, 28);
            i < 29 && LEN_BASE[i] == LengthFrom(i) && LEN_EXTRA[i] == LengthBits(i) && length - LengthFrom(i) < Pow2(LengthBits(i))
  {
    hide Pow2, LEN_BASE, LEN_EXTRA;
    ExtraPowers();
    var i := LengthAt(length, 28);
    LengthLaw(i);
    LastLength();
  }

  /** The rule alone makes symbol 284 end at 258, where the last symbol takes over. */
  lemma LastLength()
    ensures LengthFrom(28) == 258 && LengthFrom(27) == 227
  {
    LengthLaw(27);
  }

  lemma DistanceFits(dist: nat)
    requires 1 <= dist <= WINDOW
    ensures var j := DistanceAt(dist, 29);
            j < 30 && DIST_BASE[j] == DistanceFrom(j) && DIST_EXTRA[j] == DistanceBits(j) && dist - DistanceFrom(j) < Pow2(DistanceBits(j))
  {
    hide Pow2, DIST_BASE, DIST_EXTRA;
    ExtraPowers();
    var j := DistanceAt(dist, 29);
    DistanceLaw(j);
    assert DistanceFrom(29) == 24577 by { LastDistance(); }
  }

  lemma LastDistance()
    ensures DistanceFrom(29) == 24577
  {
    DistanceLaw(29);
  }

  // ---- literals and matches ----

  datatype Token = Lone(b: Byte) | Back(length: nat, dist: nat)

  /** The code word of a symbol, if the code has one. */
  ghost predicate Has(lens: seq<Byte>, s: nat) {
    s < |lens| && lens[s] > 0
  }

  /** A token that the two codes can express. */
  ghost predicate Codable(lit: seq<Byte>, dst: seq<Byte>, k: Token) {
    match k
    case Lone(b) => Has(lit, b)
    case Back(length, dist) =>
      && 3 <= length <= 258 && 1 <= dist <= WINDOW && Has(lit, 257 + LengthAt(length, 28)) && Has(dst, DistanceAt(dist, 29))
  }

  ghost function LengthCode(lit: seq<Byte>, length: nat): seq<bool>
    requires 3 <= length <= 258 && Has(lit, 257 + LengthAt(length, 28))
  {
    var i := LengthAt(length, 28);
    CodeBits(lit, 257 + i) + LowBits(length - LengthFrom(i), LengthBits(i))
  }

  ghost function DistanceCode(dst: seq<Byte>, dist: nat): seq<bool>
    requires 1 <= dist <= WINDOW && Has(dst, DistanceAt(dist, 29))
  {
    var j := DistanceAt(dist, 29);
    CodeBits(dst, j) + LowBits(dist - DistanceFrom(j), DistanceBits(j))
  }

  ghost function TokenBits(lit: seq<Byte>, dst: seq<Byte>, k: Token): seq<bool>
    requires Codable(lit, dst, k)
  {
    match k
    case Lone(b) => CodeBits(lit, b)
    case Back(length, dist) => LengthCode(lit, length) + DistanceCode(dst, dist)
  }

  lemma ExtraBack(base: nat, n: nat, v: nat, z: seq<bool>)
    requires v < Pow2(n)
    ensures Extra(base, n, LowBits(v, n) + z) == Ok(base + v, z)
  {
    hide LowBits, FromLow;
    var w := LowBits(v, n) + z;
    assert w[..n] == LowBits(v, n) && w[n..] == z;
    FromLowBits(v, n);
  }

  lemma DistanceBack(dst: seq<Byte>, dist: nat, z: seq<bool>)
    requires PrefixCode(dst, MAX_BITS) && 1 <= dist <= WINDOW && Has(dst, DistanceAt(dist, 29))
    ensures Distance(dst, DistanceCode(dst, dist) + z) == Ok(dist, z)
  {
    hide CodeBits, LowBits, Lookup, Extra, PrefixCode, DistinctCodes, DistanceAt, DistanceFrom, DistanceBits, DIST_BASE, DIST_EXTRA, Pow2;
    var j := DistanceAt(dist, 29);
    DistanceFits(dist);
    var extra := LowBits(dist - DistanceFrom(j), DistanceBits(j));
    Regroup(CodeBits(dst, j), extra, z);
    CanonicalDecode(dst, j, extra + z);
    ExtraBack(DistanceFrom(j), DistanceBits(j), dist - DistanceFrom(j), z);
  }

  /** Any length with any distance, in any two prefix codes with the symbols for them, is read back as exactly that match. */
  lemma MatchBack(lit: seq<Byte>, dst: seq<Byte>, length: nat, dist: nat, z: seq<bool>)
    requires PrefixCode(lit, MAX_BITS) && PrefixCode(dst, MAX_BITS) && Codable(lit, dst, Back(length, dist))
    ensures Next(lit, dst, TokenBits(lit, dst, Back(length, dist)) + z) == Match(length, dist, z)
  {
    hide *;
    CodableParts(lit, dst, length, dist);
    var i := LengthAt(length, 28);
    LengthFits(length);
    var word, extra, tail := CodeBits(lit, 257 + i), LowBits(length - LengthFrom(i), LengthBits(i)), DistanceCode(dst, dist);
    MatchBits(lit, dst, length, dist);
    Regroup(word + extra, tail, z);
    Regroup(word, extra, tail + z);
    CanonicalDecode(lit, 257 + i, extra + (tail + z));
    ExtraBack(LengthFrom(i), LengthBits(i), length - LengthFrom(i), tail + z);
    DistanceBack(dst, dist, z);
    NextMatch(lit, dst, word + (extra + (tail + z)), i, extra + (tail + z), length, tail + z, dist, z);
  }

  lemma CodableParts(lit: seq<Byte>, dst: seq<Byte>, length: nat, dist: nat)
    requires Codable(lit, dst, Back(length, dist))
    ensures 3 <= length <= 258 && 1 <= dist <= WINDOW && Has(lit, 257 + LengthAt(length, 28)) && Has(dst, DistanceAt(dist, 29))
    ensures 257 + LengthAt(length, 28) < |lit| && lit[257 + LengthAt(length, 28)] > 0
    ensures WINDOW == 32768 && |LEN_BASE| == |LEN_EXTRA| == 29
  {
    hide LengthAt, DistanceAt;
  }

  lemma MatchBits(lit: seq<Byte>, dst: seq<Byte>, length: nat, dist: nat)
    requires Codable(lit, dst, Back(length, dist))
    ensures var i := LengthAt(length, 28);
            TokenBits(lit, dst, Back(length, dist)) == CodeBits(lit, 257 + i) + LowBits(length - LengthFrom(i), LengthBits(i)) + DistanceCode(dst, dist)
  {
    hide LengthAt, DistanceAt, CodeBits, LowBits, DistanceCode, LengthFrom, LengthBits, DistanceFrom;
  }

  lemma NextMatch(lit: seq<Byte>, dst: seq<Byte>, z: seq<bool>, i: nat, z1: seq<bool>, length: nat, z2: seq<bool>, dist: nat, z3: seq<bool>)
    requires i < 29 && Lookup(lit, z, 0) == Ok(257 + i, z1) && Extra(LEN_BASE[i], LEN_EXTRA[i], z1) == Ok(length, z2)
    requires Distance(dst, z2) == Ok(dist, z3) && dist <= WINDOW
    ensures Next(lit, dst, z) == Match(length, dist, z3)
  {
    hide Lookup, Extra, Distance, LEN_BASE, LEN_EXTRA;
  }

  lemma ByteBack(lit: seq<Byte>, dst: seq<Byte>, b: Byte, z: seq<bool>)
    requires PrefixCode(lit, MAX_BITS) && Has(lit, b)
    ensures Next(lit, dst, CodeBits(lit, b) + z) == Literal(b, z)
  {
    hide CodeBits, Lookup, PrefixCode, DistinctCodes;
    CanonicalDecode(lit, b, z);
  }

  lemma EndBack(lit: seq<Byte>, dst: seq<Byte>, z: seq<bool>)
    requires PrefixCode(lit, MAX_BITS) && Has(lit, 256)
    ensures Next(lit, dst, CodeBits(lit, 256) + z) == End(z)
  {
    hide CodeBits, Lookup, PrefixCode, DistinctCodes;
    CanonicalDecode(lit, 256, z);
  }

  // ---- the data of a block ----

  /** Every match reaches back no further than the bytes there are. */
  ghost predicate Reaching(n: nat, ks: seq<Token>)
    decreases |ks|
  {
    ks == [] || match ks[0]
                case Lone(_) => Reaching(n + 1, ks[1..])
                case Back(length, dist) => 1 <= dist <= n && Reaching(n + length, ks[1..])
  }

  /** What the tokens stand for, after what is there. */
  ghost function Played(out: seq<Byte>, ks: seq<Token>): (r: seq<Byte>)
    requires Reaching(|out|, ks)
    ensures out <= r
    decreases |ks|
  {
    if ks == [] then out
    else
      match ks[0]
      case Lone(b) => Played(out + [b], ks[1..])
      case Back(length, dist) => Played(Copy(out, length, dist), ks[1..])
  }

  ghost predicate AllCodable(lit: seq<Byte>, dst: seq<Byte>, ks: seq<Token>) {
    && PrefixCode(lit, 15) && PrefixCode(dst, 15) && Has(lit, 256)
    && forall i :: 0 <= i < |ks| ==> Codable(lit, dst, ks[i])
  }

  /** The tokens, and the end of the block, before what follows. */
  ghost function TokensBits(lit: seq<Byte>, dst: seq<Byte>, ks: seq<Token>, z: seq<bool>): seq<bool>
    requires AllCodable(lit, dst, ks)
    decreases |ks|
  {
    if ks == [] then CodeBits(lit, 256) + z else TokenBits(lit, dst, ks[0]) + TokensBits(lit, dst, ks[1..], z)
  }

  /** Any sequence of tokens is read back as what it stands for, whatever lies before the member. */
  lemma {:induction false} TokensBack(lit: seq<Byte>, dst: seq<Byte>, ks: seq<Token>, stale: seq<Byte>, out: seq<Byte>, z: seq<bool>)
    requires AllCodable(lit, dst, ks) && Reaching(|out|, ks) && |stale| == WINDOW
    ensures Expand(lit, dst, TokensBits(lit, dst, ks, z), stale + out) == Inflated.Done(stale + Played(out, ks), z)
    decreases |ks|
  {
    hide PrefixCode, CodeBits, Codable, TokenBits, Next, Copy;
    if ks == [] {
      EndBack(lit, dst, z);
    } else {
      var rest := TokensBits(lit, dst, ks[1..], z);
      assert Codable(lit, dst, ks[0]);
      TokenStep(lit, dst, ks[0], rest);
      match ks[0]
      case Lone(b) =>
        Regroup(stale, out, [b]);
        TokensBack(lit, dst, ks[1..], stale, out + [b], z);
      case Back(length, dist) =>
        CopyBehind(stale, out, length, dist);
        TokensBack(lit, dst, ks[1..], stale, Copy(out, length, dist), z);
    }
  }

  lemma TokenStep(lit: seq<Byte>, dst: seq<Byte>, k: Token, z: seq<bool>)
    requires PrefixCode(lit, MAX_BITS) && PrefixCode(dst, MAX_BITS) && Codable(lit, dst, k)
    ensures Next(lit, dst, TokenBits(lit, dst, k) + z)
            == match k { case Lone(b) => Literal(b, z) case Back(length, dist) => Match(length, dist, z) }
  {
    hide Next, CodeBits, PrefixCode;
    match k
    case Lone(b) => ByteBack(lit, dst, b, z);
    case Back(length, dist) => MatchBack(lit, dst, length, dist, z);
  }

  // ---- section 3.2.7: the codes of a dynamic block ----

  /** Whose length is sent in place i: 16, 17, 18, 0, then 8 and outwards from it, above and below in turn. */
  ghost function Place(i: nat): (s: nat)
    requires i < 19
    ensures s < 19
  {
    if i < 3 then 16 + i else if i == 3 then 0 else if i % 2 == 0 then 8 + (i - 4) / 2 else 7 - (i - 5) / 2
  }

  lemma OrderLaw(i: nat)
    requires i < 19
    ensures CL_ORDER[i] == Place(i)
  {
    if i < 7 {
    } else if i < 13 {
    } else {
    }
  }

  /** Three bits for each of the first n places. */
  ghost function ClLensBits(cl: seq<Byte>, i: nat, n: nat, z: seq<bool>): seq<bool>
    requires |cl| == 19 && i <= n <= 19
    decreases n - i
  {
    if i == n then z else LowBits(cl[Place(i)], 3) + ClLensBits(cl, i + 1, n, z)
  }

  /** The places before i are as in cl, the others still zero. */
  ghost predicate Filled(cl: seq<Byte>, i: nat, acc: seq<Byte>)
    requires |cl| == |acc| == 19 && i <= 19
  {
    && (forall k :: 0 <= k < i ==> acc[Place(k)] == cl[Place(k)])
    && forall k :: i <= k < 19 ==> acc[Place(k)] == 0
  }

  /** No symbol has two places, and none has no place. */
  lemma PlaceOf(s: nat) returns (i: nat)
    requires s < 19
    ensures i < 19 && Place(i) == s
  {
    i := if s >= 16 then s - 16 else if s == 0 then 3 else if s >= 8 then 2 * s - 12 else 19 - 2 * s;
  }

  lemma {:induction false} ClLensBack(cl: seq<Byte>, i: nat, n: nat, acc: seq<Byte>, z: seq<bool>)
    requires |cl| == |acc| == 19 && i <= n <= 19 && (forall s :: 0 <= s < 19 ==> cl[s] < 8)
    requires Filled(cl, i, acc) && forall k :: n <= k < 19 ==> cl[Place(k)] == 0
    ensures CodeLengthLens(ClLensBits(cl, i, n, z), i, n, acc) == Ok(cl, z)
    decreases n - i
  {
    hide LowBits, FromLow, CL_ORDER, Place;
    if i == n {
      assert acc == cl by {
        forall s | 0 <= s < 19
          ensures acc[s] == cl[s]
        {
          var k := PlaceOf(s);
        }
      }
    } else {
      OrderLaw(i);
      var v := cl[Place(i)];
      var rest := ClLensBits(cl, i + 1, n, z);
      var w := LowBits(v, 3) + rest;
      assert Pow2(3) == 8;
      FromLowBits(v, 3);
      assert w[..3] == LowBits(v, 3) && w[3..] == rest;
      var next := acc[Place(i) := v];
      PlacesApart(i);
      assert Filled(cl, i + 1, next);
      ClLensBack(cl, i + 1, n, next, z);
    }
  }

  lemma PlacesApart(i: nat)
    requires i < 19
    ensures forall k :: 0 <= k < 19 && k != i ==> Place(k) != Place(i)
  {
  }

  /** A length as it is, the last one again 3 to 6 times, or 3 to 138 zeros. */
  datatype Run = One(l: Byte) | Again(n: nat) | Zeros(n: nat)

  /** A run that the code of code lengths can express. */
  ghost predicate Sendable(cl: seq<Byte>, r: Run) {
    match r
    case One(l) => l < 16 && Has(cl, l)
    case Again(n) => 3 <= n <= 6 && Has(cl, 16)
    case Zeros(n) => 3 <= n <= 138 && Has(cl, if n <= 10 then 17 else 18)
  }

  ghost function RunBits(cl: seq<Byte>, r: Run): seq<bool>
    requires Sendable(cl, r)
  {
    match r
    case One(l) => CodeBits(cl, l)
    case Again(n) => CodeBits(cl, 16) + LowBits(n - 3, 2)
    case Zeros(n) => if n <= 10 then CodeBits(cl, 17) + LowBits(n - 3, 3) else CodeBits(cl, 18) + LowBits(n - 11, 7)
  }

  ghost function AfterRun(acc: seq<Byte>, r: Run): (lens: seq<Byte>)
    requires r.Again? ==> acc != []
  {
    match r
    case One(l) => acc + [l]
    case Again(n) => acc + Copies(acc[|acc| - 1], n)
    case Zeros(n) => acc + Copies(0, n)
  }

  /** The runs give these lengths. */
  ghost predicate Spells(cl: seq<Byte>, acc: seq<Byte>, rs: seq<Run>, lens: seq<Byte>)
    decreases |rs|
  {
    if rs == [] then acc == lens
    else Sendable(cl, rs[0]) && (rs[0].Again? ==> acc != []) && Spells(cl, AfterRun(acc, rs[0]), rs[1..], lens)
  }

  ghost function RunsBits(cl: seq<Byte>, acc: seq<Byte>, rs: seq<Run>, lens: seq<Byte>, z: seq<bool>): seq<bool>
    requires Spells(cl, acc, rs, lens)
    decreases |rs|
  {
    if rs == [] then z else RunBits(cl, rs[0]) + RunsBits(cl, AfterRun(acc, rs[0]), rs[1..], lens, z)
  }

  lemma {:induction false} SpellsGrow(cl: seq<Byte>, acc: seq<Byte>, rs: seq<Run>, lens: seq<Byte>)
    requires Spells(cl, acc, rs, lens)
    ensures |acc| <= |lens| && (rs != [] ==> |acc| < |AfterRun(acc, rs[0])| <= |lens|)
    decreases |rs|
  {
    hide Has;
    if rs != [] { SpellsGrow(cl, AfterRun(acc, rs[0]), rs[1..], lens); }
  }

  /** Any runs that spell the lengths are read back as them. */
  lemma {:induction false} RunsBack(cl: seq<Byte>, acc: seq<Byte>, rs: seq<Run>, lens: seq<Byte>, z: seq<bool>)
    requires |cl| == 19 && PrefixCode(cl, MAX_BITS) && Spells(cl, acc, rs, lens) && |acc| <= |lens|
    ensures CodeLengths(cl, RunsBits(cl, acc, rs, lens, z), |lens|, acc) == Ok(lens, z)
    decreases |rs|
  {
    hide PrefixCode, RunBits, CodeLengths, Sendable;
    SpellsGrow(cl, acc, rs, lens);
    if rs == [] {
      AllLengths(cl, z, acc);
    } else {
      var next := AfterRun(acc, rs[0]);
      var rest := RunsBits(cl, next, rs[1..], lens, z);
      RunBack(cl, acc, rs[0], |lens|, rest);
      RunsBack(cl, next, rs[1..], lens, z);
    }
  }

  lemma AllLengths(cl: seq<Byte>, z: seq<bool>, acc: seq<Byte>)
    requires |cl| == 19
    ensures CodeLengths(cl, z, |acc|, acc) == Ok(acc, z)
  {
  }

  lemma RunBack(cl: seq<Byte>, acc: seq<Byte>, r: Run, total: nat, z: seq<bool>)
    requires |cl| == 19 && PrefixCode(cl, MAX_BITS) && Sendable(cl, r) && (r.Again? ==> acc != []) && |acc| < |AfterRun(acc, r)| <= total
    ensures CodeLengths(cl, RunBits(cl, r) + z, total, acc) == CodeLengths(cl, z, total, AfterRun(acc, r))
  {
    hide PrefixCode, CodeBits, Lookup, Extra, LowBits, DistinctCodes, Copies;
    match r
    case One(l) => CanonicalDecode(cl, l, z);
    case Again(n) =>
      RepeatBack(cl, 16, n - 3, z);
    case Zeros(n) =>
      if n <= 10 { RepeatBack(cl, 17, n - 3, z); } else { RepeatBack(cl, 18, n - 11, z); }
  }

  lemma RepeatBack(cl: seq<Byte>, s: nat, v: nat, z: seq<bool>)
    requires 16 <= s <= 18 && |cl| == 19 && PrefixCode(cl, MAX_BITS) && Has(cl, s) && v < (if s == 16 then 4 else if s == 17 then 8 else 128)
    ensures var k := if s == 16 then 2 else if s == 17 then 3 else 7;
            var w := LowBits(v, k) + z;
            && Lookup(cl, CodeBits(cl, s) + LowBits(v, k) + z, 0) == Ok(s, w)
            && Extra(RepeatBase(s), RepeatBits(s), w) == Ok(v + (if s == 18 then 11 else 3), z)
  {
    hide PrefixCode, CodeBits, Lookup, Extra, LowBits, DistinctCodes, Pow2;
    ExtraPowers();
    var k := if s == 16 then 2 else if s == 17 then 3 else 7;
    Regroup(CodeBits(cl, s), LowBits(v, k), z);
    CanonicalDecode(cl, s, LowBits(v, k) + z);
    ExtraBack(RepeatBase(s), k, v, z);
  }

  /** What a dynamic block starts with: how many lengths there are of each kind, the code of code lengths, and the runs. */
  datatype Codebook = Codebook(hlit: nat, hdist: nat, hclen: nat, cl: seq<Byte>, runs: seq<Run>, lens: seq<Byte>)

  ghost predicate WellMade(c: Codebook) {
    && 257 <= c.hlit <= 286 && 1 <= c.hdist <= 32 && 4 <= c.hclen <= 19
    && |c.cl| == 19 && PrefixCode(c.cl, 15) && (forall s :: 0 <= s < 19 ==> c.cl[s] < 8)
    && (forall k :: c.hclen <= k < 19 ==> c.cl[Place(k)] == 0)
    && |c.lens| == c.hlit + c.hdist && Spells(c.cl, [], c.runs, c.lens)
    && PrefixCode(c.lens[..c.hlit], 15) && PrefixCode(c.lens[c.hlit..], 15)
  }

  ghost function CodebookBits(c: Codebook, z: seq<bool>): seq<bool>
    requires WellMade(c)
  {
    LowBits(c.hlit - 257, 5) + (LowBits(c.hdist - 1, 5) + (LowBits(c.hclen - 4, 4)
    + ClLensBits(c.cl, 0, c.hclen, RunsBits(c.cl, [], c.runs, c.lens, z))))
  }

  /** Any pair of prefix codes, with its lengths in any runs under any code for them, is read back. */
  lemma CodebookBack(c: Codebook, z: seq<bool>)
    requires WellMade(c)
    ensures Tables(CodebookBits(c, z)) == Ok(Codes(c.lens[..c.hlit], c.lens[c.hlit..]), z)
  {
    hide LowBits, FromLow, CodeLengths, CodeLengthLens, PrefixCode, DistinctCodes, Copies, Spells, ClLensBits, RunsBits, Place;
    var runs := RunsBits(c.cl, [], c.runs, c.lens, z);
    var cls := ClLensBits(c.cl, 0, c.hclen, runs);
    FieldsBack(c.hlit - 257, c.hdist - 1, c.hclen - 4, cls);
    ClLensBack(c.cl, 0, c.hclen, Copies(0, 19), runs);
    RunsBack(c.cl, [], c.runs, c.lens, z);
    PrefixUsable(c.cl);
    PrefixUsable(c.lens[..c.hlit]);
    PrefixUsable(c.lens[c.hlit..]);
  }

  lemma PrefixUsable(lens: seq<Byte>)
    requires PrefixCode(lens, MAX_BITS)
    ensures Usable(lens)
  {
    hide DistinctCodes, Kraft;
    KraftDistinct(lens);
  }

  lemma FieldsBack(a: nat, b: nat, c: nat, z: seq<bool>)
    requires a < 32 && b < 32 && c < 16
    ensures var w := LowBits(a, 5) + (LowBits(b, 5) + (LowBits(c, 4) + z));
            |w| >= 14 && FromLow(w[..5]) == a && FromLow(w[5..10]) == b && FromLow(w[10..14]) == c && w[14..] == z
  {
    hide LowBits, FromLow;
    ExtraPowers();
    FromLowBits(a, 5);
    FromLowBits(b, 5);
    FromLowBits(c, 4);
    var w := LowBits(a, 5) + (LowBits(b, 5) + (LowBits(c, 4) + z));
    assert w[..5] == LowBits(a, 5) && w[5..10] == LowBits(b, 5) && w[10..14] == LowBits(c, 4) && w[14..] == z;
  }

  // ---- section 3.2.6: the fixed code words ----

  ghost function FixedWord(s: nat): seq<bool>
    requires s < 288
  {
    if s < 144 then ToBits(0x30 + s, 8)
    else if s < 256 then ToBits(0x190 + (s - 144), 9)
    else if s < 280 then ToBits(s - 256, 7)
    else ToBits(0xc0 + (s - 280), 8)
  }

  lemma {:induction false} CountMore(a: seq<Byte>, b: Byte, n: nat, c: int)
    ensures Count(a + Copies(b, n), c) == Count(a, c) + (if b == c then n else 0)
    decreases n
  {
    if n == 0 {
      assert a + Copies(b, 0) == a;
    } else {
      CountMore(a, b, n - 1, c);
      var w := a + Copies(b, n);
      assert w[..|w| - 1] == a + Copies(b, n - 1);
    }
  }

  /** How often a length occurs among the first s of the fixed code. */
  lemma FixedCount(s: nat, c: int)
    requires s <= 288
    ensures var least := (x: int, y: int) => if x < y then x else y;
            Count(FIXED_LIT[..s], c) == (if c == 8 then least(s, 144) + (if s > 280 then s - 280 else 0)
                                         else if c == 9 then (if s > 144 then least(s, 256) - 144 else 0)
                                         else if c == 7 then (if s > 256 then least(s, 280) - 256 else 0)
                                         else 0)
  {
    hide Count, Copies;
    NoCount(c);
    var a, b, d := Copies(8, 144), Copies(8, 144) + Copies(9, 112), Copies(8, 144) + Copies(9, 112) + Copies(7, 24);
    CountMore([], 8, 144, c);
    assert [] + a == a;
    CountMore(a, 9, 112, c);
    CountMore(b, 7, 24, c);
    if s <= 144 {
      CountMore([], 8, s, c);
      assert FIXED_LIT[..s] == [] + Copies(8, s);
    } else if s <= 256 {
      CountMore(a, 9, s - 144, c);
      assert FIXED_LIT[..s] == a + Copies(9, s - 144);
    } else if s <= 280 {
      CountMore(b, 7, s - 256, c);
      assert FIXED_LIT[..s] == b + Copies(7, s - 256);
    } else {
      CountMore(d, 8, s - 280, c);
      assert FIXED_LIT[..s] == d + Copies(8, s - 280);
    }
  }

  lemma NoCount(c: int)
    ensures Count([], c) == 0
  {
  }

  lemma FixedFirst()
    ensures First(FIXED_LIT, 7) == 0 && First(FIXED_LIT, 8) == 0x30 && First(FIXED_LIT, 9) == 0x190
  {
    hide Count, Copies;
    assert FIXED_LIT[..288] == FIXED_LIT;
    forall c ensures Count(FIXED_LIT, c) == if c == 8 then 152 else if c == 9 then 112 else if c == 7 then 24 else 0 { FixedCount(288, c); }
    NoneShorter(FIXED_LIT, 7);
    assert Past(FIXED_LIT, 7) == 24;
  }

  /** The fixed code words are those of the table in section 3.2.6. */
  lemma FixedWords(s: nat)
    requires s < 288
    ensures |FIXED_LIT| == 288 && FIXED_LIT[s] > 0 && CodeBits(FIXED_LIT, s) == FixedWord(s)
  {
    hide Count, Copies, First, ToBits;
    FixedFirst();
    FixedCount(s, FIXED_LIT[s]);
  }

  lemma FixedDistances(s: nat)
    requires s < 32
    ensures |FIXED_DIST| == 32 && FIXED_DIST[s] > 0 && CodeBits(FIXED_DIST, s) == ToBits(s, 5)
  {
    hide Count, Copies, First, ToBits;
    NoCount(5);
    CountMore([], 5, s, 5);
    assert FIXED_DIST[..s] == [] + Copies(5, s);
    NoneShorter(FIXED_DIST, 5);
  }

  // ---- blocks ----

  /** A block: bytes as they are, after bits that fill up a byte, or tokens in the fixed or in its own codes. */
  datatype Chunk = Raw(pad: seq<bool>, bytes: seq<Byte>) | Fixed(tokens: seq<Token>) | Own(book: Codebook, tokens: seq<Token>)

  ghost predicate Sound(c: Chunk) {
    match c
    case Raw(pad, bytes) => |pad| < 8 && |bytes| <= 0xffff
    case Fixed(ks) => AllCodable(FIXED_LIT, FIXED_DIST, ks)
    case Own(book, ks) => WellMade(book) && AllCodable(book.lens[..book.hlit], book.lens[book.hlit..], ks)
  }

  ghost function Kind(c: Chunk): nat {
    match c
    case Raw(_, _) => 0
    case Fixed(_) => 1
    case Own(_, _) => 2
  }

  ghost function BodyBits(c: Chunk, z: seq<bool>): seq<bool>
    requires Sound(c)
  {
    match c
    case Raw(pad, bytes) => pad + (ByteBits(LittleBytes(|bytes|, 2) + LittleBytes(0xffff - |bytes|, 2) + bytes) + z)
    case Fixed(ks) => TokensBits(FIXED_LIT, FIXED_DIST, ks, z)
    case Own(book, ks) => CodebookBits(book, TokensBits(book.lens[..book.hlit], book.lens[book.hlit..], ks, z))
  }

  ghost predicate Reaches(c: Chunk, n: nat) {
    !c.Raw? ==> Reaching(n, c.tokens)
  }

  ghost function AfterChunk(out: seq<Byte>, c: Chunk): (r: seq<Byte>)
    requires Reaches(c, |out|)
    ensures out <= r
  {
    if c.Raw? then out + c.bytes else Played(out, c.tokens)
  }

  lemma RawBack(pad: seq<bool>, bytes: seq<Byte>, hist: seq<Byte>, z: seq<bool>)
    requires |pad| < 8 && |bytes| <= 0xffff && |z| % 8 == 0
    ensures GzipMembers.Stored(pad + (ByteBits(LittleBytes(|bytes|, 2) + LittleBytes(0xffff - |bytes|, 2) + bytes) + z), hist) == Inflated.Done(hist + bytes, z)
  {
    hide *;
    var lo, hi := LittleBytes(|bytes|, 2), LittleBytes(0xffff - |bytes|, 2);
    var w := ByteBits(lo + hi + bytes) + z;
    RawSplit(lo, hi, bytes, z);
    WholeLength(lo + hi + bytes, z);
    PadDropped(pad, w);
    RawWhole(bytes, w, hist, z);
    StoredAligned(pad + w, w, hist);
  }

  lemma RawSplit(lo: seq<Byte>, hi: seq<Byte>, bytes: seq<Byte>, z: seq<bool>)
    ensures ByteBits(lo + hi + bytes) + z == ByteBits(lo) + (ByteBits(hi) + (ByteBits(bytes) + z))
  {
    hide ByteBits;
    ByteBitsAppend(lo + hi, bytes);
    ByteBitsAppend(lo, hi);
    Four(ByteBits(lo), ByteBits(hi), ByteBits(bytes), z);
  }

  lemma WholeLength(s: seq<Byte>, z: seq<bool>)
    requires |z| % 8 == 0
    ensures |ByteBits(s) + z| % 8 == 0
  {
    hide ByteBits;
    var n, m := |ByteBits(s)|, |z|;
    assert n == 8 * |s|;
  }

  lemma PadDropped(pad: seq<bool>, w: seq<bool>)
    requires |pad| < 8 && |w| % 8 == 0
    ensures Aligned(pad + w) == w && Aligned(w) == w
  {
    assert |pad + w| % 8 == |pad|;
  }

  lemma StoredAligned(z: seq<bool>, w: seq<bool>, hist: seq<Byte>)
    requires Aligned(z) == w && Aligned(w) == w
    ensures GzipMembers.Stored(z, hist) == GzipMembers.Stored(w, hist)
  {
    hide Aligned, Little, Bytes;
  }

  lemma RawWhole(bytes: seq<Byte>, w: seq<bool>, hist: seq<Byte>, z: seq<bool>)
    requires |bytes| <= 0xffff && Aligned(w) == w
    requires w == ByteBits(LittleBytes(|bytes|, 2)) + (ByteBits(LittleBytes(0xffff - |bytes|, 2)) + (ByteBits(bytes) + z))
    ensures GzipMembers.Stored(w, hist) == Inflated.Done(hist + bytes, z)
  {
    hide LowBits, FromLow, ByteBits, Bytes, Little, LittleBytes, Aligned;
    var n := |bytes|;
    var lo, hi := LittleBytes(n, 2), LittleBytes(0xffff - n, 2);
    Slices(ByteBits(lo), ByteBits(hi), ByteBits(bytes), z);
    Pow2Values();
    LittleBack(n, 2);
    LittleBack(0xffff - n, 2);
    BytesBack(lo, ByteBits(hi) + (ByteBits(bytes) + z));
    BytesBack(hi, ByteBits(bytes) + z);
    BytesBack(bytes, z);
  }

  lemma Slices(a: seq<bool>, b: seq<bool>, c: seq<bool>, z: seq<bool>)
    requires |a| == |b| == 16
    ensures var w := a + (b + (c + z)); w[16..] == b + (c + z) && w[32..] == c + z && w[32 + |c|..] == z
  {
  }

  lemma ChunkBack(c: Chunk, stale: seq<Byte>, out: seq<Byte>, z: seq<bool>)
    requires |stale| == WINDOW && Sound(c) && Reaches(c, |out|) && (c.Raw? ==> |z| % 8 == 0)
    ensures Block(Kind(c), BodyBits(c, z), stale + out) == Inflated.Done(stale + AfterChunk(out, c), z)
  {
    hide GzipMembers.Stored, Expand, Tables, TokensBits, CodebookBits, AllCodable, ByteBits, LittleBytes, Copies, Played, Reaching;
    match c
    case Raw(pad, bytes) =>
      RawBack(pad, bytes, stale + out, z);
      Regroup(stale, out, bytes);
    case Fixed(ks) => TokensBack(FIXED_LIT, FIXED_DIST, ks, stale, out, z);
    case Own(book, ks) =>
      var lit, dst := book.lens[..book.hlit], book.lens[book.hlit..];
      CodebookBack(book, TokensBits(lit, dst, ks, z));
      TokensBack(lit, dst, ks, stale, out, z);
  }

  /** One bit that marks the last block, two for its kind, and the block. */
  ghost function BlocksOf(cs: seq<Chunk>, z: seq<bool>): seq<bool>
    requires forall i :: 0 <= i < |cs| ==> Sound(cs[i])
    decreases |cs|
  {
    if cs == [] then z else [|cs| == 1] + LowBits(Kind(cs[0]), 2) + BodyBits(cs[0], BlocksOf(cs[1..], z))
  }

  /** Bytes that are sent as they are end where a byte of the file ends. */
  ghost predicate Even(cs: seq<Chunk>, z: seq<bool>)
    requires forall i :: 0 <= i < |cs| ==> Sound(cs[i])
    decreases |cs|
  {
    cs == [] || ((cs[0].Raw? ==> |BlocksOf(cs[1..], z)| % 8 == 0) && Even(cs[1..], z))
  }

  ghost predicate AllReach(out: seq<Byte>, cs: seq<Chunk>)
    decreases |cs|
  {
    cs == [] || (Reaches(cs[0], |out|) && AllReach(AfterChunk(out, cs[0]), cs[1..]))
  }

  ghost function DataOf(out: seq<Byte>, cs: seq<Chunk>): seq<Byte>
    requires AllReach(out, cs)
    decreases |cs|
  {
    if cs == [] then out else DataOf(AfterChunk(out, cs[0]), cs[1..])
  }

  /** Any blocks, of any kinds, are read back as what they stand for. */
  lemma {:induction false} BlocksBack(cs: seq<Chunk>, stale: seq<Byte>, out: seq<Byte>, z: seq<bool>)
    requires |stale| == WINDOW && cs != [] && (forall i :: 0 <= i < |cs| ==> Sound(cs[i])) && Even(cs, z) && AllReach(out, cs)
    ensures Blocks(BlocksOf(cs, z), stale + out) == Inflated.Done(stale + DataOf(out, cs), z)
    decreases |cs|
  {
    hide LowBits, FromLow, Block, BodyBits, Sound, Reaches, AfterChunk, Kind;
    var rest := BlocksOf(cs[1..], z);
    var body := BodyBits(cs[0], rest);
    BlockHead(|cs| == 1, cs[0], body);
    ChunkBack(cs[0], stale, out, rest);
    if |cs| == 1 {
      assert cs[1..] == [];
    } else {
      BlocksBack(cs[1..], stale, AfterChunk(out, cs[0]), z);
    }
  }

  lemma BlockHead(last: bool, c: Chunk, z: seq<bool>)
    ensures var w := [last] + LowBits(Kind(c), 2) + z;
            |w| >= 3 && w[0] == last && FromLow(w[1..3]) == Kind(c) && w[3..] == z
  {
    hide LowBits, FromLow;
    ExtraPowers();
    FromLowBits(Kind(c), 2);
    var w := [last] + LowBits(Kind(c), 2) + z;
    assert w[1..3] == LowBits(Kind(c), 2) && w[3..] == z;
  }

  // ---- members and files ----

  /** A member: its header, its blocks, and bits that fill up the last byte before the trailer. */
  datatype Entry = Entry(header: H.Header, chunks: seq<Chunk>, fill: seq<bool>)

  ghost function TrailerBytes(t: seq<nat>, data: seq<Byte>): (s: seq<Byte>)
    requires Table(t)
    ensures |s| == 8
  {
    LittleBytes(Finalise(SumLow(t, data)), 4) + LittleBytes(|data| % WORD, 4)
  }

  ghost function BehindBlocks(t: seq<nat>, e: Entry, z: seq<bool>): seq<bool>
    requires Table(t) && AllReach([], e.chunks)
  {
    e.fill + (ByteBits(TrailerBytes(t, DataOf([], e.chunks))) + z)
  }

  ghost predicate SoundEntry(t: seq<nat>, e: Entry, z: seq<bool>) {
    && Table(t) && H.Lawful(e.header) && e.chunks != [] && |e.fill| < 8 && AllReach([], e.chunks)
    && (forall i :: 0 <= i < |e.chunks| ==> Sound(e.chunks[i]))
    && Even(e.chunks, BehindBlocks(t, e, z))
  }

  ghost function EntryBits(t: seq<nat>, e: Entry, z: seq<bool>): seq<bool>
    requires SoundEntry(t, e, z)
  {
    ByteBits(H.HeaderBytes(e.header)) + BlocksOf(e.chunks, BehindBlocks(t, e, z))
  }

  /** Any member is read back as its data, whatever the window holds. */
  lemma EntryBack(t: seq<nat>, e: Entry, win: seq<Byte>, z: seq<bool>)
    requires SoundEntry(t, e, z) && |win| == WINDOW && |z| % 8 == 0
    ensures var w := EntryBits(t, e, z);
            |w| >= 8 && FromLow(w[..8]) == 0x1f && MemberOf(t, w, win) == Inflated.Done(DataOf([], e.chunks), z)
  {
    hide LowBits, FromLow, ByteBits, SkipHeader, Blocks, Checked, BlocksOf, DataOf, TrailerBytes, Even, Sound, AllReach, H.FieldBytes, H.Flags;
    var data, behind := DataOf([], e.chunks), BehindBlocks(t, e, z);
    var head := H.HeaderBytes(e.header);
    H.HeaderSkipped(e.header, BlocksOf(e.chunks, behind));
    FirstOf(head, BlocksOf(e.chunks, behind));
    BlocksBack(e.chunks, win, [], behind);
    assert win + [] == win && (win + data)[WINDOW..] == data;
    TrailerBack(t, data, e.fill, z);
  }

  lemma TrailerBack(t: seq<nat>, data: seq<Byte>, fill: seq<bool>, z: seq<bool>)
    requires Table(t) && |fill| < 8 && |z| % 8 == 0
    ensures Checked(t, data, fill + (ByteBits(TrailerBytes(t, data)) + z)) == Inflated.Done(data, z)
  {
    hide LowBits, FromLow, ByteBits, LittleBytes, SumLow, Finalise, Bytes, Little;
    var tail := ByteBits(TrailerBytes(t, data)) + z;
    CheckedRead(t, data, z);
    assert |tail| % 8 == 0 && |fill + tail| % 8 == |fill|;
    assert (fill + tail)[|fill|..] == tail && tail[0..] == tail;
  }

  ghost predicate SoundFile(t: seq<nat>, es: seq<Entry>)
    decreases |es|, 0
  {
    Table(t) && (es == [] || (SoundFile(t, es[1..]) && SoundEntry(t, es[0], FileOf(t, es[1..])) && |FileOf(t, es[1..])| % 8 == 0))
  }

  /** Members one after the other. */
  ghost function FileOf(t: seq<nat>, es: seq<Entry>): seq<bool>
    requires SoundFile(t, es)
    decreases |es|, 1
  {
    if es == [] then [] else EntryBits(t, es[0], FileOf(t, es[1..]))
  }

  ghost function DataOfAll(t: seq<nat>, es: seq<Entry>): seq<Byte>
    requires SoundFile(t, es)
    decreases |es|
  {
    if es == [] then [] else DataOf([], es[0].chunks) + DataOfAll(t, es[1..])
  }

  /** Whatever a compressor writes by the rules of RFC 1951 and RFC 1952, the file inflates to what it was made from. */
  lemma {:induction false} FileBack(t: seq<nat>, es: seq<Entry>, first: bool, all: seq<Byte>, win: seq<Byte>)
    requires SoundFile(t, es) && (es == [] ==> !first) && |win| == WINDOW
    ensures Gunzip(t, FileOf(t, es), first, all, win) == Inflated.Done(all + DataOfAll(t, es), [])
    decreases |es|
  {
    hide FromLow, EntryBits, MemberOf, DataOf, Turned, Even, Sound, BehindBlocks, H.Lawful, AllReach;
    if es == [] {
      NothingAfter(all);
    } else {
      var rest, data := FileOf(t, es[1..]), DataOf([], es[0].chunks);
      EntryBack(t, es[0], win, rest);
      FileBack(t, es[1..], false, all + data, Turned(win + data));
      Regroup(all, data, DataOfAll(t, es[1..]));
    }
  }
}
