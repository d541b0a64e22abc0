/** The first-stage run-length coding of a block (libc/bzlib.c:215-297, 536-682, 705-804). */
module RunLength {
  import opened Words

  // ---- decoding, one byte at a time ----

  /** The decoder between two bytes of a block: m equal bytes c just seen. After four, the next byte is a count. */
  datatype Run = Run(c: Byte, m: nat)

  const FRESH := Run(0, 0)


  ghost function Next(s: Run, x: Byte): Run {
    if s.m == 4 then Run(s.c, 0) else if s.m > 0 && x == s.c then Run(s.c, s.m + 1) else Run(x, 1)
  }

  ghost function Out(s: Run, x: Byte): seq<Byte> {
    if s.m == 4 then Copies(s.c, x) else [x]
  }

  ghost function After(s: Run, b: seq<Byte>): Run
    decreases |b|
  {
    if b == [] then s else After(Next(s, b[0]), b[1..])
  }

  ghost function Decoded(s: Run, b: seq<Byte>): seq<Byte>
    decreases |b|
  {
    if b == [] then [] else Out(s, b[0]) + Decoded(Next(s, b[0]), b[1..])
  }

  /** A block stands for these bytes. */
  ghost function Expand(b: seq<Byte>): seq<Byte> {
    Decoded(FRESH, b)
  }

  /** A block that stops where a count is due is corrupt. */
  ghost predicate Whole(b: seq<Byte>) {
    After(FRESH, b).m != 4
  }

  lemma {:induction false} Continue(s: Run, a: seq<Byte>, b: seq<Byte>)
    ensures After(s, a + b) == After(After(s, a), b)
    ensures Decoded(s, a + b) == Decoded(s, a) + Decoded(After(s, a), b)
    decreases |a|
  {
    if a == [] {
      assert a + b == b;
      assert Decoded(s, a) == [] && [] + Decoded(s, b) == Decoded(s, b);
    } else {
      assert (a + b)[0] == a[0] && (a + b)[1..] == a[1..] + b;
      Continue(Next(s, a[0]), a[1..], b);
    }
  }

  // ---- encoding a run ----

  /** add_pair_to_block: what a run of 1 to 255 equal bytes becomes. */
  function Pair(c: Byte, len: nat): (b: seq<Byte>)
    requires 1 <= len <= 255
    ensures 1 <= |b| <= 5
  {
    if len < 4 then Copies(c, len) else Copies(c, 4) + [len - 4]
  }

  /** The decoder will not take a c for part of the run before it. */
  ghost predicate Breaks(s: Run, c: Byte) {
    s.m == 0 || (s.m < 4 && s.c != c)
  }

  lemma {:induction false} Copied(s: Run, c: Byte, n: nat)
    requires s.m + n <= 4 && (s.m > 0 ==> s.c == c)
    ensures After(s, Copies(c, n)) == if n == 0 then s else Run(c, s.m + n)
    ensures Decoded(s, Copies(c, n)) == Copies(c, n)
    decreases n
  {
    if n > 0 {
      var b := Copies(c, n);
      assert b[1..] == Copies(c, n - 1) && b == [c] + Copies(c, n - 1);
      Copied(Next(s, c), c, n - 1);
    }
  }

  lemma FirstCopy(s: Run, c: Byte, n: nat)
    requires Breaks(s, c) && 1 <= n <= 4
    ensures After(s, Copies(c, n)) == Run(c, n)
    ensures Decoded(s, Copies(c, n)) == Copies(c, n)
  {
    var b := Copies(c, n);
    assert b[1..] == Copies(c, n - 1) && b == [c] + Copies(c, n - 1);
    Copied(Run(c, 1), c, n - 1);
  }

  /** A coded run decodes to the run, and leaves the decoder ready for any other byte, or for any byte at all after a count. */
  lemma PairDecodes(s: Run, c: Byte, len: nat)
    requires Breaks(s, c) && 1 <= len <= 255
    ensures Decoded(s, Pair(c, len)) == Copies(c, len)
    ensures After(s, Pair(c, len)) == if len < 4 then Run(c, len) else Run(c, 0)
  {
    if len < 4 {
      FirstCopy(s, c, len);
    } else {
      FirstCopy(s, c, 4);
      var n: Byte := len - 4;
      Continue(s, Copies(c, 4), [n]);
      assert Decoded(Run(c, 4), [n]) == Copies(c, n);
      assert Copies(c, 4) + Copies(c, n) == Copies(c, len);
    }
  }

  /** A run code appended to a block appends the run to what the block stands for. */
  lemma AppendPair(b: seq<Byte>, c: Byte, len: nat)
    requires Breaks(After(FRESH, b), c) && 1 <= len <= 255
    ensures Expand(b + Pair(c, len)) == Expand(b) + Copies(c, len)
    ensures After(FRESH, b + Pair(c, len)) == if len < 4 then Run(c, len) else Run(c, 0)
  {
    Continue(FRESH, b, Pair(c, len));
    PairDecodes(After(FRESH, b), c, len);
  }

  // ---- decoding, one run at a time ----

  /** How many of the first four bytes equal the first. */
  ghost function Lead(b: seq<Byte>): (m: nat)
    requires b != []
    ensures 1 <= m <= 4 && m <= |b| && forall i :: 0 <= i < m ==> b[i] == b[0]
    ensures m < 4 && m < |b| ==> b[m] != b[0]
  {
    if |b| == 1 || b[1] != b[0] then 1
    else if |b| == 2 || b[2] != b[0] then 2
    else if |b| == 3 || b[3] != b[0] then 3
    else 4
  }

  /** From a break on, the state before does not matter. */
  lemma BreakForgets(s: Run, b: seq<Byte>)
    requires b == [] || Breaks(s, b[0])
    ensures Decoded(s, b) == Decoded(FRESH, b)
    ensures b != [] ==> After(s, b) == After(FRESH, b)
  {
  }

  /** Runs of one to three bytes stand for themselves. */
  lemma ShortRun(b: seq<Byte>)
    requires b != [] && Lead(b) < 4
    ensures Expand(b) == Copies(b[0], Lead(b)) + Expand(b[Lead(b)..])
    ensures Whole(b) <==> Whole(b[Lead(b)..])
  {
    var m := Lead(b);
    var rest := b[m..];
    assert b == Copies(b[0], m) + rest;
    Continue(FRESH, Copies(b[0], m), rest);
    FirstCopy(FRESH, b[0], m);
    BreakForgets(Run(b[0], m), rest);
    if rest == [] { assert After(FRESH, rest) == FRESH; }
  }

  /** Four equal bytes and a count. */
  lemma LongRun(b: seq<Byte>)
    requires b != [] && Lead(b) == 4
    ensures |b| == 4 ==> Expand(b) == Copies(b[0], 4) && !Whole(b)
    ensures |b| > 4 ==> Expand(b) == Copies(b[0], 4 + b[4] as nat) + Expand(b[5..]) && (Whole(b) <==> Whole(b[5..]))
  {
    var four, rest := Copies(b[0], 4), b[4..];
    assert b == four + rest;
    Continue(FRESH, four, rest);
    FirstCopy(FRESH, b[0], 4);
    if |b| > 4 {
      var s := Run(b[0], 4);
      assert rest[0] == b[4] && rest[1..] == b[5..];
      BreakForgets(Run(b[0], 0), b[5..]);
      assert Copies(b[0], 4) + Copies(b[0], b[4]) == Copies(b[0], 4 + b[4] as nat);
      assert Copies(b[0], 4) + (Copies(b[0], b[4]) + Expand(b[5..])) == Copies(b[0], 4) + Copies(b[0], b[4]) + Expand(b[5..]);
    } else {
      assert rest == [] && four + [] == four;
    }
  }
}
