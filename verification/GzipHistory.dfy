/** Distances that reach back before the member (libc/gzip.c:498-509), which section 3.2.3 of RFC 1951 forbids. */
module GzipHistory {
  import opened Words
  import opened Crc
  import opened GzipBits
  import opened GzipTree
  import opened GzipInflate

  /** The part of an outcome that belongs to the member. */
  ghost function Own(r: Inflated): Inflated {
    if r.Done? && |r.out| >= WINDOW then Done(r.out[WINDOW..], r.rest) else r
  }

  /** Behind n bytes of the member, no distance reaches back before it. */
  ghost predicate Near(lit: seq<Byte>, dst: seq<Byte>, z: seq<bool>, n: nat)
    decreases |z|
  {
    match Next(lit, dst, z)
    case Bad => true
    case End(_) => true
    case Literal(_, rest) => Near(lit, dst, rest, n + 1)
    case Match(length, dist, rest) => dist <= n && Near(lit, dst, rest, n + length)
  }

  /** Where the codes end, and how long the member is then. */
  ghost function Measure(lit: seq<Byte>, dst: seq<Byte>, z: seq<bool>, n: nat): (r: Parsed<nat>)
    ensures r.Ok? ==> |r.rest| <= |z|
    decreases |z|
  {
    match Next(lit, dst, z)
    case Bad => Failed
    case End(rest) => Ok(n, rest)
    case Literal(_, rest) => Measure(lit, dst, rest, n + 1)
    case Match(length, _, rest) => Measure(lit, dst, rest, n + length)
  }

  /** Sections 3.2.3 and 3.2.5 of RFC 1951: expansion over the output of the member, which no distance may reach beyond. */
  ghost function Plain(lit: seq<Byte>, dst: seq<Byte>, z: seq<bool>, out: seq<Byte>): (r: Inflated)
    ensures r.Done? ==> out <= r.out && |r.rest| <= |z|
    decreases |z|
  {
    match Next(lit, dst, z)
    case Bad => Error
    case End(rest) => Done(out, rest)
    case Literal(b, rest) => Plain(lit, dst, rest, out + [b])
    case Match(length, dist, rest) => if dist > |out| then Error else Plain(lit, dst, rest, Copy(out, length, dist))
  }

  /** An outcome with the member's length for its bytes. */
  ghost predicate Measures(r: Inflated, m: Parsed<nat>) {
    match r
    case Error => m.Failed?
    case Done(hist, rest) => |hist| >= WINDOW && m == Ok(|hist| - WINDOW, rest)
  }

  lemma {:induction false} MeasureIs(lit: seq<Byte>, dst: seq<Byte>, z: seq<bool>, hist: seq<Byte>)
    requires |hist| >= WINDOW
    ensures Measures(Expand(lit, dst, z, hist), Measure(lit, dst, z, |hist| - WINDOW))
    decreases |z|
  {
    hide Next, Copy;
    var s := Next(lit, dst, z);
    if s.Literal? {
      MeasureIs(lit, dst, s.z, hist + [s.b]);
    } else if s.Match? {
      MeasureIs(lit, dst, s.z, Copy(hist, s.length, s.dist));
    }
  }

  lemma {:induction false} CopyBehind(b: seq<Byte>, out: seq<Byte>, n: nat, d: nat)
    requires 0 < d <= |out|
    ensures Copy(b + out, n, d) == b + Copy(out, n, d)
    decreases n
  {
    if n > 0 {
      var x := out[|out| - d];
      assert (b + out)[|b + out| - d] == x;
      Regroup(b, out, [x]);
      CopyBehind(b, out + [x], n - 1, d);
    }
  }

  /** What RFC 1951 makes of a stream is what the code makes of it, as long as no distance is too far, and an error otherwise. */
  lemma {:induction false} PlainIs(lit: seq<Byte>, dst: seq<Byte>, z: seq<bool>, b: seq<Byte>, out: seq<Byte>)
    requires |b| == WINDOW
    ensures Plain(lit, dst, z, out) == if Near(lit, dst, z, |out|) then Own(Expand(lit, dst, z, b + out)) else Error
    decreases |z|
  {
    hide Next, Copy;
    var s := Next(lit, dst, z);
    if s.End? {
      assert (b + out)[WINDOW..] == out;
    } else if s.Literal? {
      Regroup(b, out, [s.b]);
      PlainIs(lit, dst, s.z, b, out + [s.b]);
    } else if s.Match? && s.dist <= |out| {
      CopyBehind(b, out, s.length, s.dist);
      PlainIs(lit, dst, s.z, b, Copy(out, s.length, s.dist));
    }
  }

  /** Whether and where a stream ends does not depend on the bytes. */
  lemma {:induction false} EndsAlike(lit: seq<Byte>, dst: seq<Byte>, z: seq<bool>, hist: seq<Byte>, hist': seq<Byte>)
    requires |hist| == |hist'| >= WINDOW
    ensures var r, r' := Expand(lit, dst, z, hist), Expand(lit, dst, z, hist');
            r.Done? == r'.Done? && (r.Done? ==> r.rest == r'.rest && |r.out| == |r'.out|)
    decreases |z|
  {
    hide Next, Copy;
    var s := Next(lit, dst, z);
    if s.Literal? {
      EndsAlike(lit, dst, s.z, hist + [s.b], hist' + [s.b]);
    } else if s.Match? {
      EndsAlike(lit, dst, s.z, Copy(hist, s.length, s.dist), Copy(hist', s.length, s.dist));
    }
  }

  /** A stream with a distance that is too far, and that is accepted all the same, gives out a byte from before the member. */
  lemma {:induction false} WindowMatters(lit: seq<Byte>, dst: seq<Byte>, z: seq<bool>, b: seq<Byte>, out: seq<Byte>) returns (b': seq<Byte>)
    requires |b| == WINDOW && !Near(lit, dst, z, |out|) && Expand(lit, dst, z, b + out).Done?
    ensures |b'| == WINDOW && Own(Expand(lit, dst, z, b' + out)) != Own(Expand(lit, dst, z, b + out))
    decreases |z|
  {
    hide Next, Copy;
    var s := Next(lit, dst, z);
    if s.Literal? {
      Regroup(b, out, [s.b]);
      b' := WindowMatters(lit, dst, s.z, b, out + [s.b]);
      Regroup(b', out, [s.b]);
    } else if s.Match? && s.dist <= |out| {
      CopyBehind(b, out, s.length, s.dist);
      b' := WindowMatters(lit, dst, s.z, b, Copy(out, s.length, s.dist));
      CopyBehind(b', out, s.length, s.dist);
    } else if s.Match? {
      var k := WINDOW + |out| - s.dist;
      b' := b[k := if b[k] == 0 then 1 else 0];
      Differs(lit, dst, s.z, b, b', out, s.length, s.dist);
    }
  }

  lemma Differs(lit: seq<Byte>, dst: seq<Byte>, z: seq<bool>, b: seq<Byte>, b': seq<Byte>, out: seq<Byte>, length: nat, dist: nat)
    requires |b| == |b'| == WINDOW && |out| < dist <= WINDOW && length > 0 && b[WINDOW + |out| - dist] != b'[WINDOW + |out| - dist]
    requires Expand(lit, dst, z, Copy(b + out, length, dist)).Done?
    ensures Own(Expand(lit, dst, z, Copy(b' + out, length, dist))) != Own(Expand(lit, dst, z, Copy(b + out, length, dist)))
  {
    hide Expand;
    var h, h' := Copy(b + out, length, dist), Copy(b' + out, length, dist);
    var r, r' := Expand(lit, dst, z, h), Expand(lit, dst, z, h');
    EndsAlike(lit, dst, z, h, h');
    FirstCopied(b + out, length, dist);
    FirstCopied(b' + out, length, dist);
    var n := WINDOW + |out|;
    assert r.out[n] == h[n] && r'.out[n] == h'[n];
    assert r.out[WINDOW..][|out|] == r.out[n] && r'.out[WINDOW..][|out|] == r'.out[n];
  }

  lemma FirstCopied(hist: seq<Byte>, length: nat, dist: nat)
    requires 0 < dist <= |hist| && length > 0
    ensures Copy(hist, length, dist)[|hist|] == hist[|hist| - dist]
  {
    assert hist + [hist[|hist| - dist]] <= Copy(hist, length, dist);
  }

  /** The output is a matter of the stream alone exactly when the stream is bad or no distance reaches back before the member. */
  lemma OnlyTheStream(lit: seq<Byte>, dst: seq<Byte>, z: seq<bool>, b: seq<Byte>, out: seq<Byte>)
    requires |b| == WINDOW
    ensures (forall b': seq<Byte> :: |b'| == WINDOW ==> Own(Expand(lit, dst, z, b' + out)) == Own(Expand(lit, dst, z, b + out)))
            <==> Measure(lit, dst, z, |out|).Failed? || Near(lit, dst, z, |out|)
  {
    hide Expand, Measure, Near;
    MeasureIs(lit, dst, z, b + out);
    if Expand(lit, dst, z, b + out).Done? && !Near(lit, dst, z, |out|) {
      var b' := WindowMatters(lit, dst, z, b, out);
    } else {
      forall b': seq<Byte> | |b'| == WINDOW
        ensures Own(Expand(lit, dst, z, b' + out)) == Own(Expand(lit, dst, z, b + out))
      {
        MeasureIs(lit, dst, z, b' + out);
        PlainIs(lit, dst, z, b, out);
        PlainIs(lit, dst, z, b', out);
      }
    }
  }
}
