/**
 * Cyclic rotations of a block and their lexicographic order.
 *
 * The order of two rotations on their first h bytes is the order of two integers: the bytes read
 * as a base-256 numeral. `Key` is that numeral; `KeyIsLex` ties it to lexicographic order.
 */
module Rotations {
  import opened Words

  /** The cyclic index arithmetic of the source: one conditional wrap. */
  function Forward(n: nat, i: nat, h: nat): (r: nat)
    requires i < n && h <= n
    ensures r < n && Back(n, r, h) == i
  {
    if i + h < n then i + h else i + h - n
  }

  function Back(n: nat, i: nat, h: nat): (r: nat)
    requires i < n && h <= n
    ensures r < n
  {
    if i < h then i - h + n else i - h
  }

  function Pow256(n: nat): (r: nat)
    ensures r >= 1
  {
    if n == 0 then 1 else 256 * Pow256(n - 1)
  }

  lemma {:induction false} Pow256Add(m: nat, n: nat)
    ensures Pow256(m + n) == Pow256(m) * Pow256(n)
  {
    if m > 0 {
      Pow256Add(m - 1, n);
      MulAssoc(256, Pow256(m - 1), Pow256(n));
    }
  }

  /** The first h bytes of the rotation starting at i, as a numeral. */
  ghost function Key(b: seq<Byte>, i: nat, h: nat): (k: nat)
    requires i < |b|
    decreases h
  {
    if h == 0 then 0 else b[i] * Pow256(h - 1) + Key(b, Forward(|b|, i, 1), h - 1)
  }

  lemma KeyOfOne(b: seq<Byte>, i: nat)
    requires i < |b|
    ensures Key(b, i, 1) == b[i]
  {
    assert Pow256(0) == 1 && Key(b, Forward(|b|, i, 1), 0) == 0;
  }

  lemma DigitBound(d: int, p: nat, r: nat)
    requires 0 <= d < 256 && r < p
    ensures d * p + r < 256 * p
  {
    Scale(d + 1, 256, p);
  }

  lemma {:induction false} KeyBound(b: seq<Byte>, i: nat, h: nat)
    requires i < |b|
    ensures Key(b, i, h) < Pow256(h)
    decreases h
  {
    if h > 0 {
      KeyBound(b, Forward(|b|, i, 1), h - 1);
      DigitBound(b[i], Pow256(h - 1), Key(b, Forward(|b|, i, 1), h - 1));
    }
  }

  lemma {:induction false} KeySplit(b: seq<Byte>, i: nat, h: nat, m: nat)
    requires i < |b| && h <= |b|
    ensures Key(b, i, h + m) == Key(b, i, h) * Pow256(m) + Key(b, Forward(|b|, i, h), m)
    decreases h
  {
    if h > 0 {
      var j := Forward(|b|, i, 1);
      KeySplit(b, j, h - 1, m);
      assert Forward(|b|, j, h - 1) == Forward(|b|, i, h);
      Pow256Add(h - 1, m);
      Distribute(b[i], Pow256(h - 1), Key(b, j, h - 1), Pow256(m));
      assert h - 1 + m == h + m - 1;
    }
  }

  lemma Distribute(x: int, p: int, y: int, q: int)
    ensures (x * p + y) * q == x * (p * q) + y * q
  {
  }

  lemma DigitOrder(a: nat, c: nat, a': nat, c': nat, p: nat)
    requires c < p && c' < p
    ensures a * p + c < a' * p + c' <==> a < a' || (a == a' && c < c')
    ensures a * p + c == a' * p + c' <==> a == a' && c == c'
  {
    if a < a' { Scale(a + 1, a', p); }
    if a' < a { Scale(a' + 1, a, p); }
  }

  /** Comparing h + m bytes is comparing h bytes, then the m bytes that follow. */
  lemma KeyOrder(b: seq<Byte>, i: nat, j: nat, h: nat, m: nat)
    requires i < |b| && j < |b| && h <= |b|
    ensures var i', j' := Forward(|b|, i, h), Forward(|b|, j, h);
            && (Key(b, i, h + m) < Key(b, j, h + m) <==>
                  Key(b, i, h) < Key(b, j, h) || (Key(b, i, h) == Key(b, j, h) && Key(b, i', m) < Key(b, j', m)))
            && (Key(b, i, h + m) == Key(b, j, h + m) <==> Key(b, i, h) == Key(b, j, h) && Key(b, i', m) == Key(b, j', m))
  {
    var i', j' := Forward(|b|, i, h), Forward(|b|, j, h);
    KeySplit(b, i, h, m);
    KeySplit(b, j, h, m);
    KeyBound(b, i', m);
    KeyBound(b, j', m);
    DigitOrder(Key(b, i, h), Key(b, i', m), Key(b, j, h), Key(b, j', m), Pow256(m));
  }

  // ---- lexicographic order ----

  function Rotation(b: seq<Byte>, i: nat): seq<Byte>
    requires i <= |b|
  {
    b[i..] + b[..i]
  }

  predicate LexLeq(s: seq<Byte>, t: seq<Byte>) {
    s == [] || (t != [] && (s[0] < t[0] || (s[0] == t[0] && LexLeq(s[1..], t[1..]))))
  }

  ghost function Numeral(s: seq<Byte>): nat {
    if s == [] then 0 else s[0] * Pow256(|s| - 1) + Numeral(s[1..])
  }

  lemma {:induction false} NumeralBound(s: seq<Byte>)
    ensures Numeral(s) < Pow256(|s|)
  {
    if s != [] {
      NumeralBound(s[1..]);
      DigitBound(s[0], Pow256(|s| - 1), Numeral(s[1..]));
    }
  }

  lemma {:induction false} NumeralIsLex(s: seq<Byte>, t: seq<Byte>)
    requires |s| == |t|
    ensures Numeral(s) <= Numeral(t) <==> LexLeq(s, t)
    ensures Numeral(s) == Numeral(t) <==> s == t
  {
    if s != [] {
      NumeralIsLex(s[1..], t[1..]);
      NumeralBound(s[1..]);
      NumeralBound(t[1..]);
      DigitOrder(s[0], Numeral(s[1..]), t[0], Numeral(t[1..]), Pow256(|s| - 1));
      assert s == [s[0]] + s[1..] && t == [t[0]] + t[1..];
    }
  }

  lemma {:induction false} KeyIsNumeral(b: seq<Byte>, i: nat, h: nat)
    requires i < |b| && h <= |b|
    ensures Key(b, i, h) == Numeral(Rotation(b, i)[..h])
    decreases h
  {
    if h > 0 {
      var j := Forward(|b|, i, 1);
      KeyIsNumeral(b, j, h - 1);
      var w := Rotation(b, i)[..h];
      assert w[0] == b[i];
      assert w[1..] == Rotation(b, j)[..h - 1];
    }
  }

  /** Keys of full length order rotations exactly as lexicographic comparison does. */
  lemma KeyIsLex(b: seq<Byte>, i: nat, j: nat)
    requires i < |b| && j < |b|
    ensures Key(b, i, |b|) <= Key(b, j, |b|) <==> LexLeq(Rotation(b, i), Rotation(b, j))
    ensures Key(b, i, |b|) == Key(b, j, |b|) <==> Rotation(b, i) == Rotation(b, j)
  {
    KeyIsNumeral(b, i, |b|);
    KeyIsNumeral(b, j, |b|);
    assert Rotation(b, i)[..|b|] == Rotation(b, i) && Rotation(b, j)[..|b|] == Rotation(b, j);
    NumeralIsLex(Rotation(b, i), Rotation(b, j));
  }

  /** `ptr` lists every rotation once, in lexicographic order; equal rotations in any order. */
  predicate SortsRotations(b: seq<Byte>, ptr: seq<int>) {
    && Permutation(ptr, |b|)
    && forall p, q :: 0 <= p < q < |b| ==> LexLeq(Rotation(b, ptr[p]), Rotation(b, ptr[q]))
  }
}
