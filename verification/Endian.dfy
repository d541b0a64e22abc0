/** Numbers as bytes, least significant first and most significant first. */
module Endian {
  import opened Words
  import opened BitStream

  /** A little-endian number. */
  function Little(s: seq<Byte>): nat {
    if s == [] then 0 else s[0] + 256 * Little(s[1..])
  }

  function LittleBytes(v: nat, n: nat): (s: seq<Byte>)
    ensures |s| == n
    decreases n
  {
    if n == 0 then [] else [v % 256] + LittleBytes(v / 256, n - 1)
  }

  lemma {:induction false} LittleBack(v: nat, n: nat)
    requires v < Pow2(8 * n)
    ensures Little(LittleBytes(v, n)) == v
    decreases n
  {
    if n > 0 {
      Pow2Add(8, 8 * (n - 1));
      Pow2Values();
      SmallQuotient(v, 256, Pow2(8 * (n - 1)));
      LittleBack(v / 256, n - 1);
      assert LittleBytes(v, n)[1..] == LittleBytes(v / 256, n - 1);
    }
  }

  function BigBytes(v: nat, n: nat): (s: seq<Byte>)
    ensures |s| == n
    decreases n
  {
    if n == 0 then [] else BigBytes(v / 256, n - 1) + [v % 256]
  }

  /** A big-endian number. */
  function Big(s: seq<Byte>): nat {
    if s == [] then 0 else 256 * Big(s[..|s| - 1]) + s[|s| - 1]
  }

  lemma {:induction false} BigBack(v: nat, n: nat)
    requires v < Pow2(8 * n)
    ensures Big(BigBytes(v, n)) == v
    decreases n
  {
    if n > 0 {
      Pow2Add(8, 8 * (n - 1));
      Pow2Values();
      SmallQuotient(v, 256, Pow2(8 * (n - 1)));
      BigBack(v / 256, n - 1);
      assert BigBytes(v, n)[..n - 1] == BigBytes(v / 256, n - 1);
    }
  }

  /** Each byte, as a shift finds it. */
  lemma {:induction false} LittleAt(v: nat, n: nat, i: nat)
    requires i < n
    ensures LittleBytes(v, n)[i] == Shr(v, 8 * i) % 256
    decreases n
  {
    if i == 0 {
      ShrNone(v);
    } else {
      LittleAt(v / 256, n - 1, i - 1);
      ShrByte(v, 8 * (i - 1));
    }
  }

  lemma {:induction false} BigAt(v: nat, n: nat, i: nat)
    requires i < n
    ensures BigBytes(v, n)[i] == Shr(v, 8 * (n - 1 - i)) % 256
    decreases n
  {
    if i == n - 1 {
      ShrNone(v);
    } else {
      BigAt(v / 256, n - 1, i);
      ShrByte(v, 8 * (n - 2 - i));
    }
  }

  lemma ShrByte(v: nat, k: nat)
    ensures Shr(v / 256, k) == Shr(v, k + 8)
  {
    ShrMask(v / 256, k);
    var q, r := Shr(v / 256, k), Mask(v / 256, k);
    Pow2Add(k, 8);
    Pow2Values();
    MulAssoc(256, q, Pow2(k));
    Quotient(v, q, Pow2(k + 8), 256 * r + v % 256);
  }
}
