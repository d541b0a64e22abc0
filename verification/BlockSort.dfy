/** The fallback block sort: prefix doubling over a header-bit table (libc/blocksort.c:191-329, 1031-1090). */
module BlockSort {
  import opened Words
  import opened Rotations
  import opened Counting
  import opened FallbackQSort

  // ---- the header-bit scans ----

  /** The 32-bit word holding bit k has all its bits equal to v. */
  predicate WordIs(bh: array<bool>, k: nat, v: bool)
    requires k / 32 * 32 + 32 <= bh.Length
    reads bh
  {
    forall j :: k / 32 * 32 <= j < k / 32 * 32 + 32 ==> bh[j] == v
  }

  /**
   * The next bit different from `v` at or after `from`: bit by bit up to a word boundary, then
   * word by word, then bit by bit. `stop` is any such bit, and bounds the search.
   */
  method NextBit(bh: array<bool>, from: nat, v: bool, ghost stop: nat) returns (k: nat)
    requires from <= stop && stop + 32 <= bh.Length && bh[stop] != v
    ensures from <= k <= stop && bh[k] != v
    ensures forall j :: from <= j < k ==> bh[j] == v
  {
    k := from;
    while bh[k] == v && k % 32 != 0
      invariant from <= k <= stop
      invariant forall j :: from <= j < k ==> bh[j] == v
      decreases stop - k
    {
      k := k + 1;
    }
    if bh[k] == v {
      while WordIs(bh, k, v)
        invariant from <= k <= stop && k % 32 == 0
        invariant forall j :: from <= j < k ==> bh[j] == v
        decreases stop - k
      {
        k := k + 32;
      }
      while bh[k] == v
        invariant from <= k <= stop
        invariant forall j :: from <= j < k ==> bh[j] == v
        decreases stop - k
      {
        k := k + 1;
      }
    }
  }

  // ---- one doubling pass, on values ----

  ghost predicate SortedTo(b: seq<Byte>, fm: seq<int>, h: nat, n: int)
    requires Permutation(fm, |b|) && n <= |b|
  {
    forall p, q :: 0 <= p < q < n ==> Key(b, fm[p], h) <= Key(b, fm[q], h)
  }

  ghost predicate HeadAt(b: seq<Byte>, fm: seq<int>, bh: seq<bool>, h: nat, p: int)
    requires Permutation(fm, |b|) && 0 <= p < |b| <= |bh|
  {
    bh[p] == (p == 0 || Key(b, fm[p - 1], h) != Key(b, fm[p], h))
  }

  /** In [from, to) a header bit marks exactly the first entry of each run of equal h-byte prefixes. */
  ghost predicate Heads(b: seq<Byte>, fm: seq<int>, bh: seq<bool>, h: nat, from: int, to: int)
    requires Permutation(fm, |b|) && 0 <= from <= to <= |b| <= |bh|
  {
    forall p :: from <= p < to ==> HeadAt(b, fm, bh, h, p)
  }

  /** The source's sentinel: bits nblock, nblock+1, ... alternate, so both scans stop at the end. */
  ghost predicate Sentinels(bh: seq<bool>, n: nat) {
    |bh| >= n + 64 && bh[n] && !bh[n + 1]
  }

  ghost function Head(bh: seq<bool>, p: nat): (r: nat)
    requires p < |bh|
    ensures r <= p
  {
    if p == 0 || bh[p] then p else Head(bh, p - 1)
  }

  lemma {:induction false} HeadKey(b: seq<Byte>, fm: seq<int>, bh: seq<bool>, h: nat, p: nat)
    requires Permutation(fm, |b|) && |b| <= |bh| && Heads(b, fm, bh, h, 0, |b|) && p < |b|
    ensures Key(b, fm[Head(bh, p)], h) == Key(b, fm[p], h)
  {
    assert HeadAt(b, fm, bh, h, p);
    if p > 0 && !bh[p] { HeadKey(b, fm, bh, h, p - 1); }
  }

  lemma {:induction false} SameHead(b: seq<Byte>, fm: seq<int>, bh: seq<bool>, h: nat, p: nat, q: nat)
    requires Permutation(fm, |b|) && |b| <= |bh| && Heads(b, fm, bh, h, 0, |b|) && SortedTo(b, fm, h, |b|)
    requires p <= q < |b| && Key(b, fm[p], h) == Key(b, fm[q], h)
    ensures Head(bh, p) == Head(bh, q)
  {
    if p < q {
      assert Key(b, fm[p], h) <= Key(b, fm[q - 1], h) <= Key(b, fm[q], h);
      SameHead(b, fm, bh, h, p, q - 1);
      assert HeadAt(b, fm, bh, h, q);
    }
  }

  /** Bucket starts order entries exactly as their h-byte prefixes do. */
  lemma HeadOrder(b: seq<Byte>, fm: seq<int>, bh: seq<bool>, h: nat, p: nat, q: nat)
    requires Permutation(fm, |b|) && |b| <= |bh| && Heads(b, fm, bh, h, 0, |b|) && SortedTo(b, fm, h, |b|)
    requires p < |b| && q < |b|
    ensures Head(bh, p) < Head(bh, q) <==> Key(b, fm[p], h) < Key(b, fm[q], h)
  {
    HeadKey(b, fm, bh, h, p);
    HeadKey(b, fm, bh, h, q);
    if Key(b, fm[p], h) == Key(b, fm[q], h) {
      if p <= q { SameHead(b, fm, bh, h, p, q); } else { SameHead(b, fm, bh, h, q, p); }
    } else {
      var p', q' := Head(bh, p), Head(bh, q);
      if p' < q' { assert Key(b, fm[p'], h) <= Key(b, fm[q'], h); }
      if q' < p' { assert Key(b, fm[q'], h) <= Key(b, fm[p'], h); }
    }
  }

  /** eclass orders indices by the h bytes that lie h places further on. */
  ghost predicate Classes(b: seq<Byte>, e: seq<int>, h: nat) {
    && |e| >= |b| && h <= |b|
    && (forall x :: 0 <= x < |b| ==> e[x] >= 0)
    && forall x, y :: 0 <= x < |b| && 0 <= y < |b| ==>
         (e[x] < e[y] <==> Key(b, Forward(|b|, x, h), h) < Key(b, Forward(|b|, y, h), h))
  }

  lemma ClassesFromHeads(b: seq<Byte>, fm: seq<int>, bh: seq<bool>, e: seq<int>, h: nat)
    requires Permutation(fm, |b|) && |b| <= |bh| && h <= |b| <= |e|
    requires Heads(b, fm, bh, h, 0, |b|) && SortedTo(b, fm, h, |b|)
    requires forall p :: 0 <= p < |b| ==> e[Back(|b|, fm[p], h)] == Head(bh, p)
    ensures Classes(b, e, h)
  {
    forall x, y | 0 <= x < |b| && 0 <= y < |b|
      ensures e[x] >= 0
      ensures e[x] < e[y] <==> Key(b, Forward(|b|, x, h), h) < Key(b, Forward(|b|, y, h), h)
    {
      var p := PermutationOnto(fm, |b|, Forward(|b|, x, h));
      var q := PermutationOnto(fm, |b|, Forward(|b|, y, h));
      assert e[Back(|b|, fm[p], h)] == Head(bh, p) && e[Back(|b|, fm[q], h)] == Head(bh, q);
      HeadOrder(b, fm, bh, h, p, q);
    }
  }

  /** Within equal h-byte prefixes, class order is the order of 2h-byte prefixes. */
  lemma ClassRefinesKey(b: seq<Byte>, e: seq<int>, h: nat, x: nat, y: nat)
    requires Classes(b, e, h) && x < |b| && y < |b| && Key(b, x, h) == Key(b, y, h)
    ensures e[x] < e[y] <==> Key(b, x, 2 * h) < Key(b, y, 2 * h)
    ensures e[x] == e[y] <==> Key(b, x, 2 * h) == Key(b, y, 2 * h)
  {
    KeyOrder(b, x, y, h, h);
    KeyOrder(b, y, x, h, h);
    assert e[y] < e[x] <==> Key(b, Forward(|b|, y, h), h) < Key(b, Forward(|b|, x, h), h);
  }

  lemma LongerKey(b: seq<Byte>, x: nat, y: nat, h: nat, h': nat)
    requires x < |b| && y < |b| && h <= h' && h <= |b|
    ensures Key(b, x, h) < Key(b, y, h) ==> Key(b, x, h') < Key(b, y, h')
    ensures Key(b, x, h') == Key(b, y, h') ==> Key(b, x, h) == Key(b, y, h)
  {
    KeyOrder(b, x, y, h, h' - h);
  }

  /** Mid-pass: entries up to r are ordered and bucketed by 2h bytes, the rest by h bytes. */
  ghost predicate MidPass(b: seq<Byte>, fm: seq<int>, bh: seq<bool>, h: nat, r: int) {
    && Permutation(fm, |b|) && Sentinels(bh, |b|) && 1 <= h <= |b| && -1 <= r < |b|
    && SortedTo(b, fm, h, |b|) && SortedTo(b, fm, 2 * h, r + 1)
    && Heads(b, fm, bh, 2 * h, 0, r + 1) && Heads(b, fm, bh, h, r + 1, |b|)
    && bh[r + 1]
  }

  /** A set bit after sorting means strictly smaller prefixes before it. */
  lemma HeadSeparates(b: seq<Byte>, fm: seq<int>, bh: seq<bool>, h: nat, r: int, p: int, q: int)
    requires MidPass(b, fm, bh, h, r) && r < q < |b| && 0 <= p < q && bh[q]
    ensures Key(b, fm[p], h) < Key(b, fm[q], h) && Key(b, fm[p], 2 * h) < Key(b, fm[q], 2 * h)
  {
    assert HeadAt(b, fm, bh, h, q);
    assert Key(b, fm[q - 1], h) <= Key(b, fm[q], h);
    assert p < q - 1 ==> Key(b, fm[p], h) <= Key(b, fm[q - 1], h);
    LongerKey(b, fm[p], fm[q], h, 2 * h);
  }

  /** Singleton buckets need no work: doubling the prefix leaves them sorted and marked. */
  lemma Singletons(b: seq<Byte>, fm: seq<int>, bh: seq<bool>, h: nat, r: int, l: int)
    requires MidPass(b, fm, bh, h, r) && r + 1 <= l <= |b|
    requires forall j :: r + 1 <= j < l ==> bh[j]
    ensures SortedTo(b, fm, 2 * h, l) && Heads(b, fm, bh, 2 * h, 0, l)
  {
    forall p, q | 0 <= p < q < l
      ensures Key(b, fm[p], 2 * h) <= Key(b, fm[q], 2 * h)
    {
      if q > r { HeadSeparates(b, fm, bh, h, r, p, q); }
    }
    forall p | 0 <= p < l
      ensures HeadAt(b, fm, bh, 2 * h, p)
    {
      if p > r && p > 0 { HeadSeparates(b, fm, bh, h, r, p - 1, p); }
    }
  }

  lemma {:induction false} BucketKeys(b: seq<Byte>, fm: seq<int>, bh: seq<bool>, h: nat, r: int, l: int, p: int)
    requires MidPass(b, fm, bh, h, r) && r < l <= p < |b|
    requires forall j :: l < j <= p ==> !bh[j]
    ensures Key(b, fm[p], h) == Key(b, fm[l], h)
    decreases p
  {
    if l < p {
      BucketKeys(b, fm, bh, h, r, l, p - 1);
      assert HeadAt(b, fm, bh, h, p);
    }
  }

  /** The next bucket is [l, s]: everything between r and l is a singleton. */
  ghost predicate NextBucket(b: seq<Byte>, bh: seq<bool>, r: int, l: int, s: int) {
    && Sentinels(bh, |b|) && -1 <= r < l < s < |b|
    && (forall j :: r + 1 <= j <= l ==> bh[j]) && (forall j :: l < j <= s ==> !bh[j]) && bh[s + 1]
  }

  /** Rearranging inside a bucket changes no h-byte prefix at any position. */
  lemma BucketRearranged(b: seq<Byte>, fm: seq<int>, fm': seq<int>, bh: seq<bool>, h: nat, r: int, l: int, s: int)
    requires MidPass(b, fm, bh, h, r) && NextBucket(b, bh, r, l, s) && Rearranged(fm, fm', l, s)
    ensures Permutation(fm', |b|)
    ensures forall p :: 0 <= p < |b| ==> Key(b, fm'[p], h) == Key(b, fm[p], h)
    ensures forall p :: l <= p <= s ==> Key(b, fm'[p], h) == Key(b, fm[l], h)
  {
    PermutationRearranged(fm, fm', |b|);
    forall p | 0 <= p < |b|
      ensures Key(b, fm'[p], h) == Key(b, fm[p], h)
      ensures l <= p <= s ==> Key(b, fm'[p], h) == Key(b, fm[l], h)
    {
      if l <= p <= s {
        var p' := RearrangedFrom(fm, fm', l, s, p);
        BucketKeys(b, fm, bh, h, r, l, p);
        BucketKeys(b, fm, bh, h, r, l, p');
      }
    }
  }

  /** `bh'` marks, inside the bucket, exactly where the class changes. */
  ghost predicate Marked(fm: seq<int>, e: seq<int>, bh: seq<bool>, bh': seq<bool>, l: int, s: int)
    requires Indexes(fm, e, l, s)
  {
    && |bh'| == |bh| && 0 <= l < s < |bh|
    && (forall p :: 0 <= p <= l ==> bh'[p] == bh[p]) && (forall p :: s < p < |bh| ==> bh'[p] == bh[p])
    && (forall p :: l < p <= s ==> bh'[p] == (e[fm[p - 1]] != e[fm[p]]))
  }

  /** What the source has established when it finishes the bucket [l, s]. */
  ghost predicate Refined(b: seq<Byte>, fm: seq<int>, fm': seq<int>, bh: seq<bool>, bh': seq<bool>, e: seq<int>,
                          h: nat, r: int, l: int, s: int)
  {
    && MidPass(b, fm, bh, h, r) && NextBucket(b, bh, r, l, s) && Classes(b, e, h)
    && Rearranged(fm, fm', l, s) && Indexes(fm', e, l, s) && Ascending(fm', e, l, s)
    && Marked(fm', e, bh, bh', l, s)
  }

  lemma RefinedSorted(b: seq<Byte>, fm: seq<int>, fm': seq<int>, bh: seq<bool>, bh': seq<bool>, e: seq<int>,
                      h: nat, r: int, l: int, s: int, p: int, q: int)
    requires Refined(b, fm, fm', bh, bh', e, h, r, l, s) && Permutation(fm', |b|) && 0 <= p < q < s + 1
    ensures Key(b, fm'[p], 2 * h) <= Key(b, fm'[q], 2 * h)
  {
    BucketRearranged(b, fm, fm', bh, h, r, l, s);
    if l <= p {
      ClassRefinesKey(b, e, h, fm'[q], fm'[p]);
    } else if l <= q {
      HeadSeparates(b, fm, bh, h, r, p, l);
      LongerKey(b, fm'[p], fm'[q], h, 2 * h);
    } else {
      Singletons(b, fm, bh, h, r, l);
    }
  }

  lemma RefinedHead(b: seq<Byte>, fm: seq<int>, fm': seq<int>, bh: seq<bool>, bh': seq<bool>, e: seq<int>,
                    h: nat, r: int, l: int, s: int, p: int)
    requires Refined(b, fm, fm', bh, bh', e, h, r, l, s) && Permutation(fm', |b|) && 0 <= p < |b|
    ensures p <= s ==> HeadAt(b, fm', bh', 2 * h, p)
    ensures s < p ==> HeadAt(b, fm', bh', h, p)
  {
    BucketRearranged(b, fm, fm', bh, h, r, l, s);
    if s < p {
      assert HeadAt(b, fm, bh, h, p);
    } else if l < p {
      ClassRefinesKey(b, e, h, fm'[p - 1], fm'[p]);
    } else if p == l {
      if p > 0 {
        HeadSeparates(b, fm, bh, h, r, p - 1, l);
        LongerKey(b, fm'[p - 1], fm'[p], h, 2 * h);
      }
    } else {
      Singletons(b, fm, bh, h, r, l);
      assert HeadAt(b, fm, bh, 2 * h, p);
    }
  }

  /** Sorting one bucket by class and re-marking it advances the pass over that bucket. */
  lemma BucketDone(b: seq<Byte>, fm: seq<int>, fm': seq<int>, bh: seq<bool>, bh': seq<bool>, e: seq<int>,
                   h: nat, r: int, l: int, s: int)
    requires Refined(b, fm, fm', bh, bh', e, h, r, l, s)
    ensures MidPass(b, fm', bh', h, s)
  {
    BucketRearranged(b, fm, fm', bh, h, r, l, s);
    forall p, q | 0 <= p < q < s + 1
      ensures Key(b, fm'[p], 2 * h) <= Key(b, fm'[q], 2 * h)
    {
      RefinedSorted(b, fm, fm', bh, bh', e, h, r, l, s, p, q);
    }
    forall p | 0 <= p < |b|
      ensures p <= s ==> HeadAt(b, fm', bh', 2 * h, p)
      ensures s < p ==> HeadAt(b, fm', bh', h, p)
    {
      RefinedHead(b, fm, fm', bh, bh', e, h, r, l, s, p);
    }
  }

  // ---- the doubling passes, in place ----

  lemma BackDistinct(fm: seq<int>, n: nat, h: nat, i: nat)
    requires Permutation(fm, n) && h <= n && i < n
    ensures forall p :: 0 <= p < i ==> Back(n, fm[p], h) != Back(n, fm[i], h)
  {
    forall p | 0 <= p < i
      ensures Back(n, fm[p], h) != Back(n, fm[i], h)
    {
      assert fm[p] != fm[i];
    }
  }

  /** The pass's first loop: eclass of the entry h places before fmap[i] becomes i's bucket start. */
  method AssignClasses(fmap: array<int>, eclass: array<int>, bh: array<bool>, nblock: int, H: nat, ghost b: seq<Byte>)
    requires fmap != eclass && nblock == |b| <= fmap.Length && nblock <= eclass.Length
    requires 1 <= H <= nblock && PassStart(b, fmap[..nblock], bh[..], H)
    modifies eclass
    ensures Classes(b, eclass[..], H)
  {
    ghost var fm, bits := fmap[..nblock], bh[..];
    var j := 0;
    var i := 0;
    while i < nblock
      invariant 0 <= i <= nblock
      invariant i > 0 ==> j == Head(bits, i - 1)
      invariant forall p :: 0 <= p < i ==> eclass[Back(nblock, fm[p], H)] == Head(bits, p)
    {
      assert bh[i] == bits[i];
      assert Head(bits, i) == if i == 0 || bits[i] then i else Head(bits, i - 1);
      if bh[i] { j := i; }
      var k := fmap[i] - H;
      if k < 0 { k := k + nblock; }
      assert fmap[i] == fm[i] && k == Back(nblock, fm[i], H);
      BackDistinct(fm, nblock, H, i);
      eclass[k] := j;
      i := i + 1;
    }
    assert HeadAt(b, fm, bits, H, 0);
    ClassesFromHeads(b, fm, bits, eclass[..], H);
  }

  /** The header-bit loop over a sorted bucket. */
  method MarkBucket(fmap: array<int>, eclass: array<int>, bh: array<bool>, l: int, r: int)
    requires l < r < bh.Length && Indexes(fmap[..], eclass[..], l, r)
    requires bh[l] && forall j :: l < j <= r ==> !bh[j]
    requires forall p :: l <= p <= r ==> eclass[fmap[p]] >= 0
    modifies bh
    ensures Marked(fmap[..], eclass[..], old(bh[..]), bh[..], l, r)
  {
    var cc := -1;
    var i := l;
    while i <= r
      invariant l <= i <= r + 1
      invariant cc == if i == l then -1 else eclass[fmap[i - 1]]
      invariant forall p :: 0 <= p <= l ==> bh[p] == old(bh[p])
      invariant forall p :: i <= p < bh.Length ==> bh[p] == old(bh[p])
      invariant forall p :: l < p < i ==> bh[p] == (eclass[fmap[p - 1]] != eclass[fmap[p]])
    {
      var cc1 := eclass[fmap[i]];
      if cc != cc1 {
        bh[i] := true;
        cc := cc1;
      }
      i := i + 1;
    }
  }

  /** Find the next non-singleton bucket after r, if any. */
  method FindBucket(bh: array<bool>, nblock: int, r: int, ghost b: seq<Byte>) returns (found: bool, l: int, s: int)
    requires nblock == |b| && Sentinels(bh[..], nblock) && -1 <= r < nblock && bh[r + 1]
    ensures found ==> NextBucket(b, bh[..], r, l, s)
    ensures !found ==> forall j :: r + 1 <= j < nblock ==> bh[j]
  {
    found, l, s := false, 0, 0;
    var k := NextBit(bh, r + 1, true, nblock + 1);
    l := k - 1;
    if l >= nblock { return; }
    k := NextBit(bh, k, false, nblock);
    s := k - 1;
    if s >= nblock { return; }
    found := s > l;
  }

  /** The work on one bucket: sort it by class, then mark where the class changes. */
  method SortBucket(fmap: array<int>, eclass: array<int>, bh: array<bool>, nblock: int, H: nat, ghost r: int,
                    l: int, s: int, ghost b: seq<Byte>)
    requires fmap != eclass && nblock == |b| <= fmap.Length < 0x8000_0000
    requires MidPass(b, fmap[..nblock], bh[..], H, r) && Classes(b, eclass[..], H) && NextBucket(b, bh[..], r, l, s)
    modifies fmap, bh
    ensures MidPass(b, fmap[..nblock], bh[..], H, s)
  {
    ghost var fm, bits, e := fmap[..nblock], bh[..], eclass[..];
    QSort3(fmap, eclass, l, s);
    SortedPrefix(fm, old(fmap[..]), fmap[..], e, l, s);
    ghost var fm' := fmap[..nblock];
    BucketRearranged(b, fm, fm', bits, H, r, l, s);
    MarkBucket(fmap, eclass, bh, l, s);
    assert fmap[..nblock] == fm' && eclass[..] == e;
    assert Marked(fm', e, bits, bh[..], l, s);
    BucketDone(b, fm, fm', bits, bh[..], e, H, r, l, s);
  }

  /** The sorted range lies in the used prefix of fmap. */
  lemma SortedPrefix(fm: seq<int>, full: seq<int>, full': seq<int>, e: seq<int>, l: int, s: int)
    requires fm <= full && s < |fm| && Rearranged(full, full', l, s)
    requires Indexes(full', e, l, s) && Ascending(full', e, l, s)
    ensures Rearranged(fm, full'[..|fm|], l, s)
    ensures Indexes(full'[..|fm|], e, l, s) && Ascending(full'[..|fm|], e, l, s)
  {
    RearrangedSlice(full, full', l, s);
    var fm' := full'[..|fm|];
    assert fm == full[..l] + full[l..s + 1] + fm[s + 1..];
    assert fm' == full[..l] + full'[l..s + 1] + fm[s + 1..];
  }

  /**
   * One pass of the doubling loop: from order and buckets by H bytes to order and buckets by 2H.
   * If no bucket needed work, all rotations already differed within H bytes.
   */
  method DoublePass(fmap: array<int>, eclass: array<int>, bh: array<bool>, nblock: int, H: nat, ghost b: seq<Byte>)
    returns (nNotDone: int)
    requires fmap != eclass && nblock == |b| <= fmap.Length < 0x8000_0000 && nblock <= eclass.Length
    requires 1 <= H <= nblock && PassStart(b, fmap[..nblock], bh[..], H)
    modifies fmap, eclass, bh
    ensures PassStart(b, fmap[..nblock], bh[..], 2 * H)
    ensures nNotDone == 0 ==> AllDiffer(b, fmap[..nblock], H)
  {
    AssignClasses(fmap, eclass, bh, nblock, H, b);
    nNotDone := 0;
    var r := -1;
    PassBegins(b, fmap[..nblock], bh[..], H);
    while true
      invariant MidPass(b, fmap[..nblock], bh[..], H, r) && Classes(b, eclass[..], H)
      invariant nNotDone >= 0 && (nNotDone == 0 ==> r == -1)
      decreases nblock - r
    {
      hide Classes, MidPass;
      MidPassBounds(b, fmap[..nblock], bh[..], H, r);
      var found, l, s := FindBucket(bh, nblock, r, b);
      if !found { break; }
      nNotDone := nNotDone + (s - l + 1);
      SortBucket(fmap, eclass, bh, nblock, H, r, l, s, b);
      r := s;
    }
    PassEnds(b, fmap[..nblock], bh[..], H, r);
  }

  ghost predicate PassStart(b: seq<Byte>, fm: seq<int>, bh: seq<bool>, h: nat) {
    && Permutation(fm, |b|) && Sentinels(bh, |b|)
    && SortedTo(b, fm, h, |b|) && Heads(b, fm, bh, h, 0, |b|)
  }

  ghost predicate AllDiffer(b: seq<Byte>, fm: seq<int>, h: nat)
    requires Permutation(fm, |b|)
  {
    forall p, q :: 0 <= p < q < |b| ==> Key(b, fm[p], h) < Key(b, fm[q], h)
  }

  lemma PassBegins(b: seq<Byte>, fm: seq<int>, bh: seq<bool>, h: nat)
    requires PassStart(b, fm, bh, h) && 1 <= h <= |b|
    ensures MidPass(b, fm, bh, h, -1)
  {
    assert HeadAt(b, fm, bh, h, 0);
  }

  lemma MidPassBounds(b: seq<Byte>, fm: seq<int>, bh: seq<bool>, h: nat, r: int)
    requires MidPass(b, fm, bh, h, r)
    ensures Sentinels(bh, |b|) && -1 <= r < |b| && bh[r + 1]
  {
  }

  lemma PassEnds(b: seq<Byte>, fm: seq<int>, bh: seq<bool>, h: nat, r: int)
    requires MidPass(b, fm, bh, h, r)
    requires forall j :: r + 1 <= j < |b| ==> bh[j]
    ensures PassStart(b, fm, bh, 2 * h)
    ensures r == -1 ==> AllDiffer(b, fm, h)
  {
    Singletons(b, fm, bh, h, r, |b|);
    if r == -1 {
      forall p, q | 0 <= p < q < |b|
        ensures Key(b, fm[p], h) < Key(b, fm[q], h)
      {
        HeadSeparates(b, fm, bh, h, r, p, q);
      }
    }
  }

  /** The log(N) loop, from single bytes until H exceeds the block or every rotation stands alone. */
  method Doubling(fmap: array<int>, eclass: array<int>, bh: array<bool>, nblock: int, ghost b: seq<Byte>)
    requires fmap != eclass && 0 < nblock == |b| <= fmap.Length < 0x8000_0000 && nblock <= eclass.Length
    requires PassStart(b, fmap[..nblock], bh[..], 1)
    modifies fmap, eclass, bh
    ensures SortsRotations(b, fmap[..nblock])
  {
    var H := 1;
    while true
      invariant 1 <= H <= nblock && PassStart(b, fmap[..nblock], bh[..], H)
      decreases nblock - H
    {
      var nNotDone := DoublePass(fmap, eclass, bh, nblock, H, b);
      H := H * 2;
      if H > nblock || nNotDone == 0 {
        DoublingDone(b, fmap[..nblock], H, nNotDone == 0);
        return;
      }
    }
  }

  lemma DoublingDone(b: seq<Byte>, fm: seq<int>, h: nat, allDiffer: bool)
    requires Permutation(fm, |b|) && SortedTo(b, fm, h, |b|)
    requires if allDiffer then h % 2 == 0 && h / 2 <= |b| && AllDiffer(b, fm, h / 2) else h > |b|
    ensures SortsRotations(b, fm)
  {
    forall p, q | 0 <= p < q < |b|
      ensures LexLeq(Rotation(b, fm[p]), Rotation(b, fm[q]))
    {
      if allDiffer {
        LongerKey(b, fm[p], fm[q], h / 2, |b|);
      } else {
        LongerKey(b, fm[q], fm[p], |b|, h);
      }
      KeyIsLex(b, fm[p], fm[q]);
    }
  }

  // ---- the initial one-byte radix sort ----

  /** Byte counts, and their running sums: the end of each bucket. */
  method Histogram(block: array<Byte>, nblock: int) returns (ftab: array<int>, ftabCopy: array<int>)
    requires 0 <= nblock <= block.Length
    ensures fresh(ftab) && fresh(ftabCopy) && ftab != ftabCopy && ftab.Length == 257 && ftabCopy.Length == 256
    ensures forall c :: 0 <= c < 256 ==> ftabCopy[c] == Count(block[..nblock], c)
    ensures forall c :: 0 <= c < 256 ==> ftab[c] == Start(block[..nblock], c + 1)
  {
    ghost var b := block[..nblock];
    ftab := new int[257](_ => 0);
    ftabCopy := new int[256](_ => 0);
    for i := 0 to nblock
      invariant forall c :: 0 <= c < 256 ==> ftab[c] == Count(b[..i], c)
    {
      assert b[..i + 1][..i] == b[..i] && b[i] == block[i];
      ftab[block[i]] := ftab[block[i]] + 1;
    }
    assert b[..nblock] == b;
    for i := 0 to 256
      invariant forall c :: 0 <= c < i ==> ftabCopy[c] == Count(b, c)
      invariant forall c :: 0 <= c < 256 ==> ftab[c] == Count(b, c)
    {
      ftabCopy[i] := ftab[i];
    }
    assert ftab[0] == Start(b, 1);
    for i := 1 to 257
      invariant forall c :: 0 <= c < 256 ==> ftabCopy[c] == Count(b, c)
      invariant forall c :: i <= c < 256 ==> ftab[c] == Count(b, c)
      invariant forall c :: 0 <= c < i && c < 256 ==> ftab[c] == Start(b, c + 1)
    {
      ftab[i] := ftab[i] + ftab[i - 1];
    }
  }

  /** With the first i bytes placed, bucket c holds their indices in its cells from `low` up, latest first. */
  ghost predicate PlacedIn(b: seq<Byte>, fm: seq<int>, low: int, i: nat, c: nat) {
    && |fm| == |b| && i <= |b|
    && low == Start(b, c + 1) - Count(b[..i], c)
    && (forall p :: low <= p < Start(b, c + 1) ==> 0 <= p < |b| && 0 <= fm[p] < i && b[fm[p]] == c)
    && (forall p, q :: low <= p < q < Start(b, c + 1) ==> 0 <= p && q < |b| && fm[q] < fm[p])
  }

  ghost predicate Placed(b: seq<Byte>, fm: seq<int>, ftab: seq<int>, i: nat) {
    && |fm| == |b| && |ftab| >= 256 && i <= |b|
    && (forall c :: 0 <= c < 256 ==> PlacedIn(b, fm, ftab[c], i, c))
  }

  lemma PlaceSlot(b: seq<Byte>, low: int, i: nat, c: nat)
    requires i < |b| && b[i] == c && low == Start(b, c + 1) - Count(b[..i], c)
    ensures 0 <= Start(b, c) < low <= Start(b, c + 1) <= |b|
  {
    CountPrefix(b, i, c);
    StartTotal(b);
    StartMonotone(b, c + 1, 256);
  }

  lemma PlaceOther(b: seq<Byte>, fm: seq<int>, k: int, i: nat, c: nat, low: int, d: nat)
    requires i < |b| && b[i] == c && d != c && d < 256 && Start(b, c) <= k < Start(b, c + 1) && 0 <= k < |b|
    requires PlacedIn(b, fm, low, i, d)
    ensures PlacedIn(b, fm[k := i], low, i + 1, d)
  {
    CountPrefix(b, i, d);
    if d < c { StartMonotone(b, d + 1, c); } else { StartMonotone(b, c + 1, d); }
    assert b[..i + 1][..i] == b[..i];
    assert Count(b[..i + 1], d) == Count(b[..i], d);
    assert low >= Start(b, d);
    StartTotal(b);
    StartMonotone(b, d + 1, 256);
  }

  lemma PlaceOne(b: seq<Byte>, fm: seq<int>, ftab: seq<int>, i: nat)
    requires Placed(b, fm, ftab, i) && i < |b|
    ensures var k := ftab[b[i]] - 1; 0 <= k < |b| && Placed(b, fm[k := i], ftab[b[i] := k], i + 1)
  {
    var c: int := b[i];
    var k := ftab[c] - 1;
    assert PlacedIn(b, fm, ftab[c], i, c);
    PlaceSlot(b, ftab[c], i, c);
    assert b[..i + 1][..i] == b[..i];
    var ftab' := ftab[c := k];
    forall d | 0 <= d < 256
      ensures PlacedIn(b, fm[k := i], ftab'[d], i + 1, d)
    {
      if d != c { PlaceOther(b, fm, k, i, c, ftab[d], d); }
    }
  }

  method Place(block: array<Byte>, nblock: int, ftab: array<int>, fmap: array<int>)
    requires 0 <= nblock <= block.Length && nblock <= fmap.Length && ftab != fmap && ftab.Length == 257
    requires forall c :: 0 <= c < 256 ==> ftab[c] == Start(block[..nblock], c + 1)
    modifies ftab, fmap
    ensures Placed(block[..nblock], fmap[..nblock], ftab[..], nblock)
  {
    ghost var b := block[..nblock];
    assert b[..0] == [];
    for i := 0 to nblock
      invariant Placed(b, fmap[..nblock], ftab[..], i)
    {
      PlaceOne(b, fmap[..nblock], ftab[..], i);
      ghost var fm, ft := fmap[..nblock], ftab[..];
      var j := block[i];
      var k := ftab[j] - 1;
      ftab[j] := k;
      fmap[k] := i;
      assert fmap[..nblock] == fm[k := i] && ftab[..] == ft[j := k];
    }
  }

  ghost predicate IsStart(b: seq<Byte>, p: int, upto: nat) {
    exists c :: 0 <= c < upto && Start(b, c) == p
  }

  /** Clear the table, mark every bucket start, and lay the alternating sentinel bits after the block. */
  method InitBits(bh: array<bool>, ftab: array<int>, nblock: int, ghost b: seq<Byte>)
    requires nblock == |b| && ftab.Length == 257 && nblock + 128 <= bh.Length
    requires forall c :: 0 <= c < 256 ==> ftab[c] == Start(b, c)
    modifies bh
    ensures Sentinels(bh[..], nblock)
    ensures forall p :: 0 <= p < nblock ==> bh[p] == IsStart(b, p, 256)
  {
    StartTotal(b);
    for i := 0 to 32 * (2 + nblock / 32)
      invariant forall p :: 0 <= p < i ==> !bh[p]
    {
      bh[i] := false;
    }
    for i := 0 to 256
      invariant forall p :: 0 <= p < nblock ==> bh[p] == IsStart(b, p, i)
    {
      StartMonotone(b, i, 256);
      assert Start(b, i) == ftab[i];
      MoreStarts(b, i);
      bh[ftab[i]] := true;
    }
    for i := 0 to 32
      invariant forall p :: 0 <= p < nblock ==> bh[p] == IsStart(b, p, 256)
      invariant i > 0 ==> bh[nblock] && !bh[nblock + 1]
    {
      bh[nblock + 2 * i] := true;
      bh[nblock + 2 * i + 1] := false;
    }
  }

  lemma MoreStarts(b: seq<Byte>, i: nat)
    ensures forall p {:trigger IsStart(b, p, i + 1)} :: IsStart(b, p, i + 1) <==> IsStart(b, p, i) || p == Start(b, i)
  {
    forall p
      ensures IsStart(b, p, i + 1) <==> IsStart(b, p, i) || p == Start(b, i)
    {
      if IsStart(b, p, i + 1) {
        var c :| 0 <= c < i + 1 && Start(b, c) == p;
      }
      if IsStart(b, p, i) {
        var c :| 0 <= c < i && Start(b, c) == p;
        assert c < i + 1;
      }
    }
  }

  /** The radix sort leaves a permutation ordered and bucketed by one byte. */
  lemma RadixDone(b: seq<Byte>, fm: seq<int>, ftab: seq<int>, bh: seq<bool>)
    requires Placed(b, fm, ftab, |b|) && Sentinels(bh, |b|)
    requires forall p :: 0 <= p < |b| ==> bh[p] == IsStart(b, p, 256)
    ensures PassStart(b, fm, bh, 1)
  {
    StartTotal(b);
    assert b[..|b|] == b;
    forall p | 0 <= p < |b|
      ensures 0 <= fm[p] < |b| && InBucket(b, b[fm[p]], p)
    {
      var d := BucketOf(b, p, 256);
      assert PlacedIn(b, fm, ftab[d], |b|, d);
    }
    forall p, q | 0 <= p < q < |b|
      ensures b[fm[p]] <= b[fm[q]] && fm[p] != fm[q]
    {
      if b[fm[q]] < b[fm[p]] { BucketsDisjoint(b, b[fm[q]], b[fm[p]], q, p); }
      assert PlacedIn(b, fm, ftab[b[fm[p]]], |b|, b[fm[p]]);
    }
    forall x | 0 <= x < |b|
      ensures Key(b, x, 1) == b[x]
    {
      KeyOfOne(b, x);
    }
    forall p | 0 <= p < |b|
      ensures HeadAt(b, fm, bh, 1, p)
    {
      RadixHead(b, fm, p);
    }
  }

  lemma RadixHead(b: seq<Byte>, fm: seq<int>, p: nat)
    requires |fm| == |b| && p < |b|
    requires forall q :: 0 <= q < |b| ==> 0 <= fm[q] < |b| && InBucket(b, b[fm[q]], q)
    ensures IsStart(b, p, 256) <==> p == 0 || b[fm[p - 1]] != b[fm[p]]
  {
    var c: int := b[fm[p]];
    if p == Start(b, c) {
      assert IsStart(b, p, 256);
      if p > 0 { assert InBucket(b, b[fm[p - 1]], p - 1); }
    } else {
      var d: int := b[fm[p - 1]];
      if d < c { StartMonotone(b, d + 1, c); }
      if c < d { BucketsDisjoint(b, c, d, p, p - 1); }
      forall c' | 0 <= c' < 256
        ensures Start(b, c') != p
      {
        if c' <= c { StartMonotone(b, c', c); } else { StartMonotone(b, c + 1, c'); }
      }
    }
  }

  // ---- rebuilding the block ----

  /** The first column of the sorted rotation matrix. */
  ghost function Column(b: seq<Byte>, fm: seq<int>): (f: seq<Byte>)
    requires Permutation(fm, |b|)
    ensures |f| == |b| && forall p :: 0 <= p < |b| ==> f[p] == b[fm[p]]
  {
    seq(|b|, p requires 0 <= p < |b| => b[fm[p]])
  }

  lemma ColumnCount(b: seq<Byte>, fm: seq<int>, c: int)
    requires Permutation(fm, |b|)
    ensures Count(Column(b, fm), c) == Count(b, c)
  {
    var S, T := Occurrences(Column(b, fm), c), Occurrences(b, c);
    CountOccurrences(Column(b, fm), c);
    CountOccurrences(b, c);
    forall t | t in T
      ensures exists p :: p in S && fm[p] == t
    {
      var p := PermutationOnto(fm, |b|, t);
      assert p in S;
    }
    ImageCount(fm, S, T);
  }

  /** Sorted rotations have sorted first bytes. */
  lemma ColumnSorted(b: seq<Byte>, fm: seq<int>, p: nat, q: nat)
    requires SortsRotations(b, fm) && p <= q < |b|
    ensures b[fm[p]] <= b[fm[q]]
  {
    if p < q {
      assert LexLeq(Rotation(b, fm[p]), Rotation(b, fm[q]));
      assert Rotation(b, fm[p])[0] == b[fm[p]] && Rotation(b, fm[q])[0] == b[fm[q]];
    }
  }

  /** After i cells: the counts lack what was written, and each written cell holds its original byte. */
  ghost predicate Rebuilding(b: seq<Byte>, fm: seq<int>, counts: seq<int>, blk: seq<Byte>, i: nat, j: int) {
    && Permutation(fm, |b|) && |counts| == 256 && |blk| >= |b| && i <= |b|
    && 0 <= j < 256 && (i < |b| ==> j <= Column(b, fm)[i])
    && (forall c :: 0 <= c < 256 ==> counts[c] == Count(Column(b, fm), c) - Count(Column(b, fm)[..i], c))
    && (forall p :: 0 <= p < i ==> blk[fm[p]] == b[fm[p]])
  }

  lemma RebuildStarts(b: seq<Byte>, fm: seq<int>, counts: seq<int>, blk: seq<Byte>)
    requires Permutation(fm, |b|) && |counts| == 256 && |blk| >= |b| > 0
    requires forall c :: 0 <= c < 256 ==> counts[c] == Count(b, c)
    ensures Rebuilding(b, fm, counts, blk, 0, 0)
  {
    forall c | 0 <= c < 256
      ensures counts[c] == Count(Column(b, fm), c)
    {
      ColumnCount(b, fm, c);
    }
  }

  lemma RebuildStep(b: seq<Byte>, fm: seq<int>, counts: seq<int>, blk: seq<Byte>, i: nat, j: int, j': Byte)
    requires SortsRotations(b, fm) && Rebuilding(b, fm, counts, blk, i, j) && i < |b|
    requires j' <= Column(b, fm)[i]
    ensures counts[Column(b, fm)[i]] != 0
    ensures counts[j'] != 0 ==> Rebuilding(b, fm, counts[j' := counts[j'] - 1], blk[fm[i] := j'], i + 1, j')
  {
    var f := Column(b, fm);
    CountPrefix(f, i, f[i]);
    if counts[j'] != 0 {
      CountPrefix(f, i, j');
      NextByte(b, fm, i, j');
      CountNext(f, i);
      hide Count, SortsRotations;
    }
  }

  lemma RebuildDone(b: seq<Byte>, fm: seq<int>, counts: seq<int>, blk: seq<Byte>, j: int)
    requires Rebuilding(b, fm, counts, blk, |b|, j)
    ensures blk[..|b|] == b
  {
    forall x | 0 <= x < |b|
      ensures blk[x] == b[x]
    {
      var p := PermutationOnto(fm, |b|, x);
    }
  }

  /** Fill block[0..nblock) from the sorted order and the byte counts alone; nothing is read from `block`. */
  method Rebuild(fmap: array<int>, ftabCopy: array<int>, block: array<Byte>, nblock: int, ghost b: seq<Byte>)
    requires 0 < nblock == |b| <= fmap.Length && nblock <= block.Length && ftabCopy.Length == 256 && ftabCopy != fmap
    requires SortsRotations(b, fmap[..nblock])
    requires forall c :: 0 <= c < 256 ==> ftabCopy[c] == Count(b, c)
    modifies ftabCopy, block
    ensures block[..nblock] == b
  {
    ghost var fm := fmap[..nblock];
    RebuildStarts(b, fm, ftabCopy[..], block[..]);
    hide Rebuilding, SortsRotations;
    var j: Byte := 0;
    for i := 0 to nblock
      invariant Rebuilding(b, fm, ftabCopy[..], block[..], i, j)
      invariant i < nblock ==> j <= Column(b, fm)[i]
    {
      ghost var counts, blk, j0 := ftabCopy[..], block[..], j;
      RebuildStep(b, fm, counts, blk, i, j0, j);
      while ftabCopy[j] == 0
        invariant j <= Column(b, fm)[i]
        decreases Column(b, fm)[i] - j
      {
        j := j + 1;
      }
      RebuildStep(b, fm, counts, blk, i, j0, j);
      ftabCopy[j] := ftabCopy[j] - 1;
      block[fmap[i]] := j;
      assert ftabCopy[..] == counts[j := counts[j] - 1] && block[..] == blk[fm[i] := j];
      RebuildBound(b, fm, ftabCopy[..], block[..], i + 1, j);
    }
    RebuildDone(b, fm, ftabCopy[..], block[..], j);
  }

  lemma RebuildBound(b: seq<Byte>, fm: seq<int>, counts: seq<int>, blk: seq<Byte>, i: nat, j: int)
    requires Rebuilding(b, fm, counts, blk, i, j)
    ensures i < |b| ==> j <= Column(b, fm)[i]
  {
  }

  lemma NextByte(b: seq<Byte>, fm: seq<int>, i: nat, j: int)
    requires SortsRotations(b, fm) && i < |b| && 0 <= j <= Column(b, fm)[i]
    requires Count(Column(b, fm)[..i], j) < Count(Column(b, fm), j)
    ensures j == Column(b, fm)[i]
    ensures forall p :: 0 <= p < i ==> fm[p] != fm[i]
    ensures i + 1 < |b| ==> j <= Column(b, fm)[i + 1]
  {
    CountLater(Column(b, fm), i, j);
    var p :| i <= p < |b| && Column(b, fm)[p] == j;
    ColumnSorted(b, fm, i, p);
    if i + 1 < |b| { ColumnSorted(b, fm, i, i + 1); }
  }

  /**
   * fallbackSort: fmap ends as a permutation that sorts every cyclic rotation of the block, and the
   * block, whose storage the classes overwrote, is rebuilt byte for byte.
   */
  method FallbackSort(fmap: array<int>, eclass: array<int>, bh: array<bool>, block: array<Byte>, nblock: int)
    requires fmap != eclass && 0 < nblock <= fmap.Length < 0x8000_0000
    requires nblock <= eclass.Length && nblock <= block.Length && nblock + 128 <= bh.Length
    modifies fmap, eclass, bh, block
    ensures SortsRotations(old(block[..nblock]), fmap[..nblock])
    ensures block[..nblock] == old(block[..nblock])
  {
    ghost var b := block[..nblock];
    var ftab, ftabCopy := Histogram(block, nblock);
    Place(block, nblock, ftab, fmap);
    assert b[..nblock] == b;
    forall c | 0 <= c < 256
      ensures ftab[c] == Start(b, c)
    {
      assert PlacedIn(b, fmap[..nblock], ftab[c], nblock, c);
    }
    InitBits(bh, ftab, nblock, b);
    RadixDone(b, fmap[..nblock], ftab[..], bh[..]);
    Doubling(fmap, eclass, bh, nblock, b);
    Rebuild(fmap, ftabCopy, block, nblock, b);
  }

  /** BZ2_blockSort on its fallback path: also find the row of the unrotated block (assertion 1003 holds). */
  method SortBlock(ptr: array<int>, eclass: array<int>, bh: array<bool>, block: array<Byte>, nblock: int)
    returns (origPtr: int)
    requires ptr != eclass && 0 < nblock <= ptr.Length < 0x8000_0000
    requires nblock <= eclass.Length && nblock <= block.Length && nblock + 128 <= bh.Length
    modifies ptr, eclass, bh, block
    ensures SortsRotations(old(block[..nblock]), ptr[..nblock])
    ensures block[..nblock] == old(block[..nblock])
    ensures 0 <= origPtr < nblock && ptr[origPtr] == 0
  {
    FallbackSort(ptr, eclass, bh, block, nblock);
    ghost var at := PermutationOnto(ptr[..nblock], nblock, 0);
    origPtr := 0;
    while ptr[origPtr] != 0
      invariant 0 <= origPtr <= at
      decreases at - origPtr
    {
      origPtr := origPtr + 1;
    }
  }
}
