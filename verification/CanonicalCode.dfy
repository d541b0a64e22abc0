/** Canonical prefix codes: code assignment, decoding tables, and decoding (libc/huffman.c:151-204, libc/decompress.c:74-102). */
module CanonicalCode {
  import opened Words
  import opened Counting
  import opened BitStream

  const MAX_LEN := 20
  const TABLE_LEN := 23
  const MAX_ALPHA := 258

  // ---- the code ----

  /** The first code word of length l: all shorter words, doubled up. Length 0 marks an unused symbol. */
  ghost function First(lens: seq<Byte>, l: nat): nat
    decreases l, 0
  {
    if l <= 1 then 0 else 2 * Past(lens, l - 1)
  }

  /** One past the last code word of length l. */
  ghost function Past(lens: seq<Byte>, l: nat): nat
    decreases l, 1
  {
    First(lens, l) + (if l == 0 then 0 else Count(lens, l))
  }

  ghost function Code(lens: seq<Byte>, s: nat): nat
    requires s < |lens|
  {
    First(lens, lens[s]) + Count(lens[..s], lens[s])
  }

  ghost function CodeBits(lens: seq<Byte>, s: nat): (b: seq<bool>)
    requires s < |lens|
    ensures |b| == lens[s]
  {
    ToBits(Code(lens, s), lens[s])
  }

  // ---- the Kraft sum ----

  ghost predicate Within(lens: seq<Byte>, top: nat) {
    forall i :: 0 <= i < |lens| ==> lens[i] <= top
  }

  /** The Kraft sum, in units of 2^-top. */
  ghost function Kraft(lens: seq<Byte>, top: nat): nat
    requires Within(lens, top)
  {
    if lens == [] then 0
    else
      var x: int := lens[|lens| - 1];
      Kraft(lens[..|lens| - 1], top) + (if x == 0 then 0 else Pow2(top - x))
  }

  lemma {:induction false} PastAppend(lens: seq<Byte>, x: Byte, l: nat)
    ensures Past(lens + [x], l) == Past(lens, l) + (if 1 <= x <= l then Pow2(l - x) else 0)
  {
    assert (lens + [x])[..|lens|] == lens;
    if l > 1 { PastAppend(lens, x, l - 1); }
  }

  lemma {:induction false} PastEmpty(l: nat)
    ensures Past([], l) == 0
  {
    if l > 1 { PastEmpty(l - 1); }
  }

  /** Counting code words off level by level ends exactly at the Kraft sum. */
  lemma {:induction false} KraftIsPast(lens: seq<Byte>, top: nat)
    requires Within(lens, top)
    ensures Past(lens, top) == Kraft(lens, top)
  {
    if lens == [] {
      PastEmpty(top);
    } else {
      var t, x := lens[..|lens| - 1], lens[|lens| - 1];
      KraftIsPast(t, top);
      PastAppend(t, x, top);
      assert lens == t + [x];
    }
  }

  ghost predicate PrefixCode(lens: seq<Byte>, top: nat) {
    Within(lens, top) && Kraft(lens, top) <= Pow2(top)
  }

  /** A level's words, extended to a longer length, stay below that length's first word. */
  lemma {:induction false} PastScaled(lens: seq<Byte>, l: nat, m: nat)
    requires 1 <= l < m
    ensures Past(lens, l) * Pow2(m - l) <= First(lens, m)
    decreases m
  {
    if m > l + 1 {
      PastScaled(lens, l, m - 1);
      Doubled(Past(lens, l), Pow2(m - 1 - l));
    }
  }

  lemma PastFits(lens: seq<Byte>, l: nat, top: nat)
    requires PrefixCode(lens, top) && l <= top
    ensures Past(lens, l) <= Pow2(l)
  {
    KraftIsPast(lens, top);
    if 1 <= l < top {
      PastScaled(lens, l, top);
      Pow2Add(l, top - l);
      if Past(lens, l) > Pow2(l) {
        Scale(Pow2(l) + 1, Past(lens, l), Pow2(top - l));
        Spread(Pow2(l), 1, Pow2(top - l));
      }
    }
  }

  lemma CodeFits(lens: seq<Byte>, s: nat, top: nat)
    requires PrefixCode(lens, top) && s < |lens| && lens[s] > 0
    ensures First(lens, lens[s]) <= Code(lens, s) < Past(lens, lens[s]) <= Pow2(lens[s])
  {
    PastFits(lens, lens[s], top);
    CountPrefix(lens, s, lens[s]);
  }

  /** Cut to l bits, a longer code word is past every word of length l. */
  lemma CodeCut(lens: seq<Byte>, s: nat, l: nat)
    requires s < |lens| && 1 <= l < lens[s]
    ensures Shr(Code(lens, s), lens[s] - l) >= Past(lens, l)
  {
    var k := lens[s] - l;
    PastScaled(lens, l, lens[s]);
    ShrMask(Code(lens, s), k);
    var q := Shr(Code(lens, s), k);
    if q < Past(lens, l) {
      Scale(q + 1, Past(lens, l), Pow2(k));
      Spread(q, 1, Pow2(k));
    }
  }

  /** The symbol of length l with r others of that length before it. */
  ghost function Nth(lens: seq<Byte>, l: nat, r: nat): (s: nat)
    requires r < Count(lens, l)
    ensures s < |lens| && lens[s] == l && Count(lens[..s], l) == r
  {
    var n := |lens| - 1;
    assert forall s :: 0 <= s < n ==> lens[..n][..s] == lens[..s];
    if lens[n] == l && r == Count(lens[..n], l) then n else Nth(lens[..n], l, r)
  }

  lemma NthUnique(lens: seq<Byte>, s: nat)
    requires s < |lens|
    ensures Count(lens[..s], lens[s]) < Count(lens, lens[s])
    ensures Nth(lens, lens[s], Count(lens[..s], lens[s])) == s
  {
    CountPrefix(lens, s, lens[s]);
    var t := Nth(lens, lens[s], Count(lens[..s], lens[s]));
    if t < s { CountGrows(lens, t, s, lens[s]); } else if s < t { CountGrows(lens, s, t, lens[s]); }
  }

  // ---- decoding ----

  /** Outcome of reading from a bit stream: a value and what follows it, an input that ends early, or a data error. */
  datatype Read<+T> = Got(value: T, rest: seq<bool>) | Short | Bad

  /** How a reading step of the decompressor ends. */
  datatype Status = Done | Starved | DataError

  ghost function Outcome<T>(st: Status, value: T, rest: seq<bool>): Read<T> {
    match st
    case Done => Got(value, rest)
    case Starved => Short
    case DataError => Bad
  }

  ghost predicate Coded(lens: seq<Byte>) {
    0 < |lens| <= MAX_ALPHA && forall i :: 0 <= i < |lens| ==> 1 <= lens[i] <= MAX_LEN
  }

  /** Longer and longer prefixes of the stream, until one is a code word: zvec holds the zn bits read. */
  ghost function Scan(lens: seq<Byte>, zn: nat, zvec: nat, z: seq<bool>): (r: Read<nat>)
    requires First(lens, zn) <= zvec
    ensures r.Got? ==> r.value < |lens| && |r.rest| <= |z|
    decreases MAX_LEN + 1 - zn
  {
    if zn > MAX_LEN then Bad
    else if zn > 0 && zvec < Past(lens, zn) then Got(Nth(lens, zn, zvec - First(lens, zn)), z)
    else if z == [] then Short
    else Scan(lens, zn + 1, 2 * zvec + (if z[0] then 1 else 0), z[1..])
  }

  ghost function Shortest(lens: seq<Byte>): (m: nat)
    requires lens != []
    ensures forall i :: 0 <= i < |lens| ==> m <= lens[i]
    ensures exists i :: 0 <= i < |lens| && m == lens[i]
  {
    if |lens| == 1 then lens[0]
    else
      var m := Shortest(lens[1..]);
      assert forall i :: 0 <= i < |lens| ==> i == 0 || lens[i] == lens[1..][i - 1];
      if lens[0] < m then lens[0] else m
  }

  lemma {:induction false} NoneShorter(lens: seq<Byte>, l: nat)
    requires forall i :: 0 <= i < |lens| ==> l <= lens[i]
    ensures First(lens, l) == 0 && Start(lens, l) == 0
  {
    if l > 0 {
      NoneShorter(lens, l - 1);
      CountNone(lens, l - 1);
    }
  }

  lemma {:induction false} CountNone(lens: seq<Byte>, l: int)
    requires forall i :: 0 <= i < |lens| ==> l != lens[i]
    ensures Count(lens, l) == 0
  {
    if lens != [] { CountNone(lens[..|lens| - 1], l); }
  }

  /** Decode one symbol: the shortest code length first. */
  ghost function DecodeSymbol(lens: seq<Byte>, z: seq<bool>): (r: Read<nat>)
    requires Coded(lens)
    ensures r.Got? ==> r.value < |lens| && |r.rest| < |z|
  {
    var m := Shortest(lens);
    NoneShorter(lens, m);
    if |z| < m then Short else Scan(lens, m, FromBits(z[..m]), z[m..])
  }

  /** The scan walks down a code word to its end and stops exactly there. */
  lemma {:induction false} ScanCode(lens: seq<Byte>, s: nat, top: nat, zn: nat, z: seq<bool>)
    requires PrefixCode(lens, top) && s < |lens| && 1 <= zn <= lens[s] <= MAX_LEN
    requires First(lens, zn) <= Shr(Code(lens, s), lens[s] - zn)
    ensures Scan(lens, zn, Shr(Code(lens, s), lens[s] - zn), ToBits(Code(lens, s), lens[s] - zn) + z) == Got(s, z)
    decreases lens[s] - zn
  {
    hide *;
    var c, k := Code(lens, s), lens[s] - zn;
    if k == 0 {
      ScanEnd(lens, s, top, z);
    } else {
      CodeCut(lens, s, zn);
      FirstBit(c, k);
      var w := ToBits(c, k) + z;
      assert w == [w[0]] + (ToBits(c, k - 1) + z);
      ScanStep(lens, zn, Shr(c, k), w[0], ToBits(c, k - 1) + z);
      ScanCode(lens, s, top, zn + 1, z);
    }
  }

  lemma ScanStep(lens: seq<Byte>, zn: nat, zvec: nat, bit: bool, z: seq<bool>)
    requires 1 <= zn <= MAX_LEN && Past(lens, zn) <= zvec
    ensures First(lens, zn) <= zvec && First(lens, zn + 1) <= 2 * zvec + (if bit then 1 else 0)
    ensures Scan(lens, zn, zvec, [bit] + z) == Scan(lens, zn + 1, 2 * zvec + (if bit then 1 else 0), z)
  {
    hide Count;
    assert ([bit] + z)[1..] == z;
  }

  lemma ScanEnd(lens: seq<Byte>, s: nat, top: nat, z: seq<bool>)
    requires PrefixCode(lens, top) && s < |lens| && 1 <= lens[s] <= MAX_LEN
    ensures First(lens, lens[s]) <= Shr(Code(lens, s), 0)
    ensures Scan(lens, lens[s], Shr(Code(lens, s), 0), ToBits(Code(lens, s), 0) + z) == Got(s, z)
  {
    var c := Code(lens, s);
    CodeFits(lens, s, top);
    assert Shr(c, 0) == c && ToBits(c, 0) + z == z;
    NthUnique(lens, s);
  }

  lemma FirstBit(c: nat, k: nat)
    requires k > 0
    ensures ToBits(c, k) == [ToBits(c, k)[0]] + ToBits(c, k - 1)
    ensures Shr(c, k - 1) == 2 * Shr(c, k) + (if ToBits(c, k)[0] then 1 else 0)
  {
    TakenOff(c, k, 1);
    var h := Shr(c, k - 1);
    assert ToBits(h, 0) == [] && ToBits(h, 1) == [h % 2 == 1];
    HalfShr(c, k - 1);
  }

  lemma {:induction false} HalfShr(c: nat, k: nat)
    ensures Shr(c, k) / 2 == Shr(c, k + 1)
  {
    ShrMask(c, k + 1);
    var q, r := Shr(c, k + 1), Mask(c, k + 1);
    ShrMask(r, k);
    if Shr(r, k) >= 2 { Scale(2, Shr(r, k), Pow2(k)); }
    Doubled(q, Pow2(k));
    Spread(2 * q, Shr(r, k), Pow2(k));
    Quotient(c, 2 * q + Shr(r, k), Pow2(k), Mask(r, k));
  }

  /** Decoding a code word, whatever follows it, yields its symbol and consumes exactly its bits. */
  lemma DecodeCode(lens: seq<Byte>, s: nat, z: seq<bool>)
    requires Coded(lens) && PrefixCode(lens, MAX_LEN) && s < |lens|
    ensures DecodeSymbol(lens, CodeBits(lens, s) + z) == Got(s, z)
  {
    hide FromBits, ToBits, Pow2, Shr, Mask, Code, First, Past, Kraft, Count, Nth;
    var m, c, n := Shortest(lens), Code(lens, s), lens[s];
    NoneShorter(lens, m);
    TakenOff(c, n, m);
    CodeFits(lens, s, MAX_LEN);
    var w := CodeBits(lens, s) + z;
    assert w[..m] == ToBits(c, n)[..m] && w[m..] == ToBits(c, n - m) + z;
    ShrFits(c, n, m);
    ScanCode(lens, s, MAX_LEN, m, z);
  }

  lemma ShrFits(c: nat, n: nat, m: nat)
    requires m <= n && c < Pow2(n)
    ensures Mask(Shr(c, n - m), m) == Shr(c, n - m) < Pow2(m)
  {
    hide Pow2;
    Pow2Add(m, n - m);
    SmallQuotient(c, Pow2(n - m), Pow2(m));
    Quotient(Shr(c, n - m), 0, Pow2(m), Shr(c, n - m));
  }

  /** No code word is a prefix of another's. */
  lemma PrefixFree(lens: seq<Byte>, top: nat, s: nat, t: nat)
    requires PrefixCode(lens, top) && s < |lens| && t < |lens| && s != t && lens[s] > 0 && lens[t] > 0
    ensures !(CodeBits(lens, s) <= CodeBits(lens, t))
  {
    hide ToBits, FromBits, Shr, Mask, Kraft, Count, First, Past;
    var a, b := CodeBits(lens, s), CodeBits(lens, t);
    if a <= b {
      var m, n := lens[s], lens[t];
      CodeFits(lens, s, top);
      CodeFits(lens, t, top);
      TakenOff(Code(lens, t), n, m);
      ShrFits(Code(lens, t), n, m);
      assert b[..m] == a;
      FromToBits(Code(lens, s), m);
      if m < n {
        CodeCut(lens, t, m);
      } else {
        ShrNone(Code(lens, t));
        NthUnique(lens, s);
        NthUnique(lens, t);
      }
    }
  }
}
