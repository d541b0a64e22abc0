/** Member headers with their optional fields (libc/gzip.c:17-21, 354-396), per section 2.3 of RFC 1952. */
module GzipHeader {
  import opened Words
  import opened BitStream
  import opened MtfCoding
  import opened Endian
  import opened GzipBits
  import opened GzipTree
  import opened GzipMembers

  type Field = Option<seq<Byte>>

  /** What a header holds besides its magic: time, extra flags and system, and the optional fields. */
  datatype Header = Header(text: bool, reserved: nat, info: seq<Byte>, extra: Field, name: Field, comment: Field, check: Field)

  ghost predicate NoZero(s: seq<Byte>) {
    forall i :: 0 <= i < |s| ==> s[i] != 0
  }

  ghost predicate Lawful(h: Header) {
    && h.reserved < 8 && |h.info| == 6
    && (h.extra.Some? ==> |h.extra.value| < 65536)
    && (h.name.Some? ==> NoZero(h.name.value))
    && (h.comment.Some? ==> NoZero(h.comment.value))
    && (h.check.Some? ==> |h.check.value| == 2)
  }

  ghost function If(present: bool, weight: nat): nat {
    if present then weight else 0
  }

  /** FTEXT, FHCRC, FEXTRA, FNAME, FCOMMENT and three reserved bits. */
  ghost function Flags(h: Header): (f: Byte)
    requires h.reserved < 8
  {
    If(h.text, 1) + If(h.check.Some?, 2) + If(h.extra.Some?, 4) + If(h.name.Some?, 8) + If(h.comment.Some?, 16) + 32 * h.reserved
  }

  ghost function ExtraBytes(x: Field): seq<Byte> {
    if x.None? then [] else LittleBytes(|x.value|, 2) + x.value
  }

  ghost function StringBytes(x: Field): seq<Byte> {
    if x.None? then [] else x.value + [0]
  }

  ghost function CheckBytes(x: Field): seq<Byte> {
    if x.None? then [] else x.value
  }

  ghost function FieldBytes(h: Header): seq<Byte> {
    ExtraBytes(h.extra) + (StringBytes(h.name) + (StringBytes(h.comment) + CheckBytes(h.check)))
  }

  ghost function HeaderBytes(h: Header): seq<Byte>
    requires Lawful(h)
  {
    [0x1f, 0x8b, 8, Flags(h)] + h.info + FieldBytes(h)
  }

  // ---- the flags ----

  lemma FlagWeights()
    ensures Pow2(1) == 2 && Pow2(2) == 4 && Pow2(3) == 8 && Pow2(4) == 16
  {
  }

  lemma FlagsTell(h: Header)
    requires h.reserved < 8
    ensures Flag(Flags(h), 1) == h.check.Some? && Flag(Flags(h), 2) == h.extra.Some?
    ensures Flag(Flags(h), 3) == h.name.Some? && Flag(Flags(h), 4) == h.comment.Some?
  {
    hide Pow2;
    FlagWeights();
    var f := Flags(h);
    var q := If(h.comment.Some?, 1) + 2 * h.reserved;
    var p := If(h.name.Some?, 1) + 2 * q;
    var o := If(h.extra.Some?, 1) + 2 * p;
    var n := If(h.check.Some?, 1) + 2 * o;
    assert f == If(h.text, 1) + 2 * n;
    Quotient(f, n, 2, If(h.text, 1));
    Quotient(f, o, 4, If(h.text, 1) + If(h.check.Some?, 2));
    Quotient(f, p, 8, If(h.text, 1) + If(h.check.Some?, 2) + If(h.extra.Some?, 4));
    Quotient(f, q, 16, If(h.text, 1) + If(h.check.Some?, 2) + If(h.extra.Some?, 4) + If(h.name.Some?, 8));
  }

  // ---- reading the fields ----

  lemma {:induction false} StringSkipped(s: seq<Byte>, rest: seq<bool>)
    requires NoZero(s)
    ensures SkipString(ByteBits(s + [0]) + rest) == Ok((), rest)
  {
    hide LowBits, FromLow;
    Pow2Values();
    var all := s + [0];
    var z := ByteBits(all) + rest;
    FromLowBits(all[0], 8);
    assert z[..8] == LowBits(all[0], 8) && z[8..] == ByteBits(all[1..]) + rest;
    if s == [] {
      assert all[1..] == [];
      assert ByteBits([]) + rest == rest;
    } else {
      assert all[1..] == s[1..] + [0];
      StringSkipped(s[1..], rest);
    }
  }

  lemma ExtraSkipped(x: seq<Byte>, rest: seq<bool>)
    requires |x| < 65536
    ensures SkipExtra(ByteBits(LittleBytes(|x|, 2) + x) + rest) == Ok((), rest)
  {
    hide LowBits, FromLow, ByteBits, Bytes, LittleBytes, Little;
    Pow2Values();
    var size := LittleBytes(|x|, 2);
    LittleBack(|x|, 2);
    ByteBitsAppend(size, x);
    Regroup(ByteBits(size), ByteBits(x), rest);
    BytesBack(size, ByteBits(x) + rest);
    assert (ByteBits(x) + rest)[8 * |x|..] == rest;
  }

  /** Fields that are not there take no room. */
  lemma Nothing(rest: seq<bool>)
    ensures ByteBits([]) + rest == rest
  {
  }

  lemma FieldsSkipped(h: Header, rest: seq<bool>)
    requires Lawful(h)
    ensures SkipFields(ByteBits(FieldBytes(h)) + rest, Flags(h)) == Ok((), rest)
  {
    hide LowBits, FromLow, ByteBits, SkipExtra, SkipString, Flag, NoZero, LittleBytes, Flags;
    FlagsTell(h);
    Nothing(rest);
    var c := CheckBytes(h.check);
    var z4 := ByteBits(c) + rest;
    assert z4[8 * |c|..] == rest;
    var m := StringBytes(h.comment);
    ByteBitsAppend(m, c);
    Regroup(ByteBits(m), ByteBits(c), rest);
    Nothing(z4);
    var z3 := ByteBits(m) + z4;
    if h.comment.Some? { StringSkipped(h.comment.value, z4); }
    var n := StringBytes(h.name);
    ByteBitsAppend(n, m + c);
    Regroup(ByteBits(n), ByteBits(m + c), rest);
    Nothing(z3);
    var z2 := ByteBits(n) + z3;
    if h.name.Some? { StringSkipped(h.name.value, z3); }
    var x := ExtraBytes(h.extra);
    ByteBitsAppend(x, n + (m + c));
    Regroup(ByteBits(x), ByteBits(n + (m + c)), rest);
    Nothing(z2);
    if h.extra.Some? { ExtraSkipped(h.extra.value, z2); }
  }

  /** Whatever fields a header has, it is skipped whole. */
  lemma HeaderSkipped(h: Header, rest: seq<bool>)
    requires Lawful(h)
    ensures SkipHeader(ByteBits(HeaderBytes(h)) + rest) == Ok((), rest)
  {
    hide LowBits, FromLow, ByteBits, Bytes, SkipFields, FieldBytes, Flags;
    var fixed := [0x1f, 0x8b, 8, Flags(h)] + h.info;
    ByteBitsAppend(fixed, FieldBytes(h));
    Regroup(ByteBits(fixed), ByteBits(FieldBytes(h)), rest);
    BytesBack(fixed, ByteBits(FieldBytes(h)) + rest);
    FieldsSkipped(h, rest);
  }

  // ---- every header that is accepted is one of these ----

  lemma Taken(z: seq<bool>, n: nat)
    requires 8 * n <= |z|
    ensures ByteBits(Bytes(z, n)) + z[8 * n..] == z
  {
    hide LowBits, FromLow, ByteBits;
    BytesOf(z[..8 * n], n);
    BytesPrefix(z, n);
    assert z[..8 * n] + z[8 * n..] == z;
  }

  lemma {:induction false} BytesPrefix(z: seq<bool>, n: nat)
    requires 8 * n <= |z|
    ensures Bytes(z, n) == Bytes(z[..8 * n], n)
  {
    hide FromLow;
    if n > 0 {
      BytesPrefix(z[8..], n - 1);
      assert z[..8 * n][..8] == z[..8] && z[..8 * n][8..] == z[8..][..8 * (n - 1)];
    }
  }

  lemma {:induction false} StringRead(z: seq<bool>) returns (s: seq<Byte>)
    requires SkipString(z).Ok?
    ensures NoZero(s) && z == ByteBits(s + [0]) + SkipString(z).rest
    decreases |z|
  {
    hide LowBits, FromLow, ByteBits, NoZero;
    var c := Bytes(z, 1)[0];
    Taken(z, 1);
    assert Bytes(z, 1) == [c] && c == FromLow(z[..8]) by { assert Bytes(z[8..], 0) == []; }
    if c == 0 {
      s := [];
      assert NoZero(s) by { Zeroless(0, []); }
      assert s + [0] == [0];
    } else {
      var tail := StringRead(z[8..]);
      s := [c] + tail;
      Zeroless(c, tail);
      assert s + [0] == [c] + (tail + [0]);
      ByteBitsAppend([c], tail + [0]);
      Regroup(ByteBits([c]), ByteBits(tail + [0]), SkipString(z).rest);
    }
  }

  lemma Zeroless(c: Byte, s: seq<Byte>)
    ensures NoZero([]) && (c != 0 && NoZero(s) ==> NoZero([c] + s))
  {
  }

  lemma ExtraRead(z: seq<bool>) returns (x: seq<Byte>)
    requires SkipExtra(z).Ok?
    ensures |x| < 65536 && z == ByteBits(LittleBytes(|x|, 2) + x) + SkipExtra(z).rest
  {
    hide LowBits, FromLow, ByteBits, Bytes, LittleBytes, Little;
    var size := Bytes(z, 2);
    var n := Little(size);
    TwoBack(size);
    x := Bytes(z[16..], n);
    Taken(z, 2);
    Taken(z[16..], n);
    ByteBitsAppend(size, x);
    Regroup(ByteBits(size), ByteBits(x), SkipExtra(z).rest);
  }

  lemma TwoBack(s: seq<Byte>)
    requires |s| == 2
    ensures Little(s) < 65536 && LittleBytes(Little(s), 2) == s
  {
    assert s[1..][1..] == [] && Little(s[1..]) == s[1];
    var lo: nat, hi: nat := s[0], s[1];
    var v := lo + 256 * hi;
    assert LittleBytes(v / 256, 1) == [s[1]] by { assert LittleBytes(v / 256 / 256, 0) == []; }
  }

  lemma Halved(a: nat)
    ensures a == a % 2 + 2 * (a / 2) && a / 2 == a / 2 % 2 + 2 * (a / 4) && a / 4 == a / 4 % 2 + 2 * (a / 8)
    ensures a / 8 == a / 8 % 2 + 2 * (a / 16) && a / 16 == a / 16 % 2 + 2 * (a / 32)
  {
    HalfOf(a, 2);
    HalfOf(a, 4);
    HalfOf(a, 8);
    HalfOf(a, 16);
  }

  lemma HalfOf(a: nat, m: nat)
    requires m > 0
    ensures a / m == a / m % 2 + 2 * (a / (2 * m))
  {
    var q := a / m / 2;
    DivMod(a, m);
    var r := a / m % 2;
    Spread(2 * q, r, m);
    MulAssoc(2, q, m);
    Doubled(q, m);
    Scale(r, 1, m);
    Quotient(a, q, 2 * m, r * m + a % m);
  }

  lemma FlagsOf(f: Byte, h: Header)
    requires h.reserved == f / 32 && h.text == (f % 2 == 1) && Flag(f, 1) == h.check.Some? && Flag(f, 2) == h.extra.Some?
    requires Flag(f, 3) == h.name.Some? && Flag(f, 4) == h.comment.Some?
    ensures Flags(h) == f
  {
    hide Pow2;
    FlagWeights();
    var a: nat := f;
    var b, c, d, e, g := a / 2, a / 4, a / 8, a / 16, a / 32;
    assert a == a % 2 + 2 * b && b == b % 2 + 2 * c && c == c % 2 + 2 * d && d == d % 2 + 2 * e && e == e % 2 + 2 * g by { Halved(a); }
  }

  lemma FieldsRead(z: seq<bool>, f: Byte, info: seq<Byte>) returns (h: Header)
    requires SkipFields(z, f).Ok? && |info| == 6
    ensures Lawful(h) && h.info == info && Flags(h) == f && z == ByteBits(FieldBytes(h)) + SkipFields(z, f).rest
  {
    hide LowBits, FromLow, ByteBits, Bytes, LittleBytes, Little, SkipExtra, SkipString, Flag, NoZero;
    var extra, name, comment, check: Field := None, None, None, None;
    var z1, z2, z3, rest := z, z, z, SkipFields(z, f).rest;
    Nothing(z);
    if Flag(f, 2) {
      var x := ExtraRead(z);
      extra, z1 := Some(x), SkipExtra(z).rest;
    }
    assert z == ByteBits(ExtraBytes(extra)) + z1;
    Nothing(z1);
    z2 := z1;
    if Flag(f, 3) {
      var x := StringRead(z1);
      name, z2 := Some(x), SkipString(z1).rest;
    }
    assert z1 == ByteBits(StringBytes(name)) + z2;
    Nothing(z2);
    z3 := z2;
    if Flag(f, 4) {
      var x := StringRead(z2);
      comment, z3 := Some(x), SkipString(z2).rest;
    }
    assert z2 == ByteBits(StringBytes(comment)) + z3;
    Nothing(z3);
    if Flag(f, 1) {
      check := Some(Bytes(z3, 2));
      Taken(z3, 2);
    }
    assert z3 == ByteBits(CheckBytes(check)) + rest;
    h := Header(f % 2 == 1, f / 32, info, extra, name, comment, check);
    FlagsOf(f, h);
    FieldsJoin(ExtraBytes(extra), StringBytes(name), StringBytes(comment), CheckBytes(check), rest);
  }

  lemma FieldsJoin(a: seq<Byte>, b: seq<Byte>, c: seq<Byte>, d: seq<Byte>, rest: seq<bool>)
    ensures ByteBits(a + (b + (c + d))) + rest == ByteBits(a) + (ByteBits(b) + (ByteBits(c) + (ByteBits(d) + rest)))
  {
    hide ByteBits;
    ByteBitsAppend(c, d);
    ByteBitsAppend(b, c + d);
    ByteBitsAppend(a, b + (c + d));
    Regroup(ByteBits(c), ByteBits(d), rest);
    Regroup(ByteBits(b), ByteBits(c + d), rest);
    Regroup(ByteBits(a), ByteBits(b + (c + d)), rest);
  }

  lemma HeaderRead(z: seq<bool>) returns (h: Header)
    requires SkipHeader(z).Ok?
    ensures Lawful(h) && z == ByteBits(HeaderBytes(h)) + SkipHeader(z).rest
  {
    hide LowBits, FromLow, ByteBits, Bytes, SkipFields, FieldBytes, Flags;
    var fixed := Bytes(z, 10);
    Taken(z, 10);
    h := FieldsRead(z[80..], fixed[3], fixed[4..]);
    assert fixed == [0x1f, 0x8b, 8, Flags(h)] + h.info;
    ByteBitsAppend(fixed, FieldBytes(h));
    Regroup(ByteBits(fixed), ByteBits(FieldBytes(h)), SkipHeader(z).rest);
  }

  /** The bits that are accepted as a header are exactly the headers of section 2.3, their reserved flags free. */
  lemma HeaderIs(z: seq<bool>, rest: seq<bool>)
    ensures SkipHeader(z) == Ok((), rest) <==> exists h :: Lawful(h) && z == ByteBits(HeaderBytes(h)) + rest
  {
    hide SkipHeader, ByteBits, HeaderBytes, Lawful;
    if SkipHeader(z) == Ok((), rest) {
      var h := HeaderRead(z);
    }
    if h :| Lawful(h) && z == ByteBits(HeaderBytes(h)) + rest { HeaderSkipped(h, rest); }
  }
}
