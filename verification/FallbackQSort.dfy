/** The fallback three-way quicksort with its explicit stack (libc/blocksort.c:29-180). */
module FallbackQSort {
  import opened Words

  const SMALL_THRESH := 10
  const STACK_SIZE := 100

  /** Every fmap entry in [lo, hi] indexes eclass. */
  ghost predicate Indexes(fm: seq<int>, e: seq<int>, lo: int, hi: int) {
    && 0 <= lo && hi < |fm|
    && forall p :: lo <= p <= hi ==> 0 <= fm[p] < |e|
  }

  ghost predicate Ascending(fm: seq<int>, e: seq<int>, lo: int, hi: int)
    requires Indexes(fm, e, lo, hi)
  {
    forall p, q :: lo <= p < q <= hi ==> e[fm[p]] <= e[fm[q]]
  }

  /** `after` is `before` with the entries of [lo, hi] rearranged. */
  ghost predicate Rearranged(before: seq<int>, after: seq<int>, lo: int, hi: int) {
    && |before| == |after|
    && 0 <= lo <= hi + 1 <= |before|
    && (forall p :: 0 <= p < lo ==> after[p] == before[p])
    && (forall p :: hi < p < |before| ==> after[p] == before[p])
    && multiset(after) == multiset(before)
  }

  lemma RearrangedSlice(before: seq<int>, after: seq<int>, lo: int, hi: int)
    requires Rearranged(before, after, lo, hi)
    ensures multiset(after[lo..hi + 1]) == multiset(before[lo..hi + 1])
  {
    assert before == before[..lo] + before[lo..hi + 1] + before[hi + 1..];
    assert after == before[..lo] + after[lo..hi + 1] + before[hi + 1..];
    Cancel(multiset(before[..lo]), multiset(before[lo..hi + 1]), multiset(after[lo..hi + 1]), multiset(before[hi + 1..]));
  }

  /** Each entry of a rearranged range was already in that range. */
  lemma RearrangedFrom(before: seq<int>, after: seq<int>, lo: int, hi: int, p: int) returns (p': int)
    requires Rearranged(before, after, lo, hi) && lo <= p <= hi
    ensures lo <= p' <= hi && before[p'] == after[p]
  {
    RearrangedSlice(before, after, lo, hi);
    assert after[p] == after[lo..hi + 1][p - lo];
    assert after[p] in multiset(before[lo..hi + 1]);
    var k :| 0 <= k < hi + 1 - lo && before[lo..hi + 1][k] == after[p];
    p' := k + lo;
  }

  lemma RearrangedIndexes(before: seq<int>, after: seq<int>, e: seq<int>, lo: int, hi: int, l: int, h: int)
    requires Rearranged(before, after, lo, hi) && Indexes(before, e, l, h) && l <= lo && hi <= h
    ensures Indexes(after, e, l, h)
  {
    forall p | l <= p <= h
      ensures 0 <= after[p] < |e|
    {
      if lo <= p <= hi { var p' := RearrangedFrom(before, after, lo, hi, p); }
    }
  }

  method Swap(fmap: array<int>, i: nat, j: nat)
    requires i < fmap.Length && j < fmap.Length
    modifies fmap
    ensures fmap[..] == old(fmap[..])[i := old(fmap[j])][j := old(fmap[i])]
  {
    fmap[i], fmap[j] := fmap[j], fmap[i];
  }

  /** The insertion loop on values: `tmp` climbs from `hole` in steps of `gap` past smaller classes. */
  ghost function Sink(fm: seq<int>, e: seq<int>, tmp: int, hole: int, hi: int, gap: int): seq<int>
    requires 0 <= hole <= hi && 0 < gap && 0 <= tmp < |e| && Indexes(fm, e, hole, hi)
    decreases hi - hole
  {
    if hole + gap <= hi && e[tmp] > e[fm[hole + gap]] then
      Sink(fm[hole := fm[hole + gap]], e, tmp, hole + gap, hi, gap)
    else
      fm[hole := tmp]
  }

  lemma {:induction false} SinkRearranges(fm: seq<int>, e: seq<int>, tmp: int, hole: int, hi: int, gap: int)
    requires 0 <= hole <= hi && 0 < gap && 0 <= tmp < |e| && Indexes(fm, e, hole, hi)
    ensures Rearranged(fm[hole := tmp], Sink(fm, e, tmp, hole, hi, gap), hole, hi)
    ensures Indexes(Sink(fm, e, tmp, hole, hi, gap), e, hole, hi)
    decreases hi - hole
  {
    if hole + gap <= hi && e[tmp] > e[fm[hole + gap]] {
      SinkRearranges(fm[hole := fm[hole + gap]], e, tmp, hole + gap, hi, gap);
      HoleMoved(fm, hole, hole + gap, tmp);
    }
    RearrangedIndexes(fm[hole := tmp], Sink(fm, e, tmp, hole, hi, gap), e, hole, hi, hole, hi);
  }

  /** With gap 1 the loop extends an ascending range by one entry at its low end. */
  lemma {:induction false} SinkAscends(fm: seq<int>, e: seq<int>, tmp: int, hole: int, hi: int)
    requires 0 <= hole <= hi && 0 <= tmp < |e| && Indexes(fm, e, hole, hi) && Ascending(fm, e, hole + 1, hi)
    ensures var r := Sink(fm, e, tmp, hole, hi, 1);
            && |r| == |fm| && Indexes(r, e, hole, hi) && Ascending(r, e, hole, hi)
            && (forall p :: 0 <= p < hole ==> r[p] == fm[p])
            && (e[r[hole]] == e[tmp] || (hole < hi && e[r[hole]] == e[fm[hole + 1]] < e[tmp]))
    decreases hi - hole
  {
    if hole + 1 <= hi && e[tmp] > e[fm[hole + 1]] {
      SinkAscends(fm[hole := fm[hole + 1]], e, tmp, hole + 1, hi);
    }
  }

  method Insert(fmap: array<int>, eclass: array<int>, i: int, hi: int, gap: int)
    requires fmap != eclass && 0 <= i <= hi && 0 < gap
    requires Indexes(fmap[..], eclass[..], i, hi)
    modifies fmap
    ensures fmap[..] == Sink(old(fmap[..]), eclass[..], old(fmap[i]), i, hi, gap)
  {
    var tmp := fmap[i];
    var ecTmp := eclass[tmp];
    var j := i + gap;
    while j <= hi && ecTmp > eclass[fmap[j]]
      invariant i + gap <= j <= hi + gap
      invariant Indexes(fmap[..], eclass[..], j - gap, hi)
      invariant Sink(fmap[..], eclass[..], tmp, j - gap, hi, gap) == Sink(old(fmap[..]), eclass[..], tmp, i, hi, gap)
    {
      ghost var now := fmap[..];
      fmap[j - gap] := fmap[j];
      assert fmap[..] == now[j - gap := now[j]];
      j := j + gap;
    }
    ghost var now := fmap[..];
    fmap[j - gap] := tmp;
    assert fmap[..] == now[j - gap := tmp];
  }

  /** The small-range sort: a gap-4 pass, then plain insertion. */
  method SimpleSort(fmap: array<int>, eclass: array<int>, lo: int, hi: int)
    requires fmap != eclass && lo <= hi + 1
    requires Indexes(fmap[..], eclass[..], lo, hi)
    modifies fmap
    ensures Rearranged(old(fmap[..]), fmap[..], lo, hi) && Indexes(fmap[..], eclass[..], lo, hi)
    ensures Ascending(fmap[..], eclass[..], lo, hi)
  {
    if lo == hi { return; }
    if hi - lo > 3 {
      var i := hi - 4;
      while i >= lo
        invariant lo - 1 <= i <= hi - 4
        invariant Rearranged(old(fmap[..]), fmap[..], lo, hi) && Indexes(fmap[..], eclass[..], lo, hi)
      {
        InsertFacts(fmap[..], eclass[..], lo, i, hi, 4);
        Insert(fmap, eclass, i, hi, 4);
        i := i - 1;
      }
    }
    var i := hi - 1;
    while i >= lo
      invariant lo - 2 <= i <= hi - 1 && (lo <= hi ==> lo - 1 <= i)
      invariant Rearranged(old(fmap[..]), fmap[..], lo, hi) && Indexes(fmap[..], eclass[..], lo, hi)
      invariant lo <= hi ==> Ascending(fmap[..], eclass[..], i + 1, hi)
    {
      InsertFacts(fmap[..], eclass[..], lo, i, hi, 1);
      SinkAscends(fmap[..], eclass[..], fmap[i], i, hi);
      Insert(fmap, eclass, i, hi, 1);
      i := i - 1;
    }
  }

  lemma InsertFacts(fm: seq<int>, e: seq<int>, lo: int, i: int, hi: int, gap: int)
    requires 0 <= lo <= i <= hi && 0 < gap && Indexes(fm, e, lo, hi)
    ensures var r := Sink(fm, e, fm[i], i, hi, gap); Rearranged(fm, r, lo, hi) && Indexes(r, e, lo, hi)
  {
    SinkRearranges(fm, e, fm[i], i, hi, gap);
    assert fm[i := fm[i]] == fm;
    RearrangedIndexes(fm, Sink(fm, e, fm[i], i, hi, gap), e, lo, hi, lo, hi);
  }

  lemma SwapRearranged(was: seq<int>, fm: seq<int>, lo: int, hi: int, i: int, j: int)
    requires Rearranged(was, fm, lo, hi) && lo <= i <= hi && lo <= j <= hi
    ensures Rearranged(was, fm[i := fm[j]][j := fm[i]], lo, hi)
  {
  }

  /**
   * The partitioning state inside [lo, hi]: classes equal to `med` at both ends, smaller ones in
   * [ltLo, unLo), greater ones in (unHi, gtHi], and the unexamined entries between.
   */
  ghost predicate Split(was: seq<int>, fm: seq<int>, e: seq<int>, med: int,
                        lo: int, hi: int, ltLo: int, unLo: int, unHi: int, gtHi: int)
  {
    && Rearranged(was, fm, lo, hi) && Indexes(fm, e, lo, hi)
    && lo <= ltLo <= unLo <= unHi + 1 && unHi <= gtHi <= hi
    && (forall p :: lo <= p < ltLo ==> e[fm[p]] == med)
    && (forall p :: ltLo <= p < unLo ==> e[fm[p]] < med)
    && (forall p :: unHi < p <= gtHi ==> e[fm[p]] > med)
    && (forall p :: gtHi < p <= hi ==> e[fm[p]] == med)
  }

  method ScanUp(fmap: array<int>, eclass: array<int>, med: int, lo: int, hi: int,
                ltLo0: int, unLo0: int, unHi: int, gtHi: int, ghost was: seq<int>)
    returns (ltLo: int, unLo: int)
    requires fmap != eclass && Split(was, fmap[..], eclass[..], med, lo, hi, ltLo0, unLo0, unHi, gtHi)
    modifies fmap
    ensures Split(was, fmap[..], eclass[..], med, lo, hi, ltLo, unLo, unHi, gtHi)
    ensures unLo0 <= unLo && (unLo <= unHi ==> eclass[fmap[unLo]] > med)
    ensures forall p :: unLo <= p < fmap.Length ==> fmap[p] == old(fmap[p])
  {
    ltLo, unLo := ltLo0, unLo0;
    while unLo <= unHi && eclass[fmap[unLo]] <= med
      invariant Split(was, fmap[..], eclass[..], med, lo, hi, ltLo, unLo, unHi, gtHi)
      invariant unLo0 <= unLo
      invariant forall p :: unLo <= p < fmap.Length ==> fmap[p] == old(fmap[p])
      decreases unHi - unLo
    {
      if eclass[fmap[unLo]] == med {
        SwapRearranged(was, fmap[..], lo, hi, unLo, ltLo);
        Swap(fmap, unLo, ltLo);
        ltLo := ltLo + 1;
      }
      unLo := unLo + 1;
    }
  }

  method ScanDown(fmap: array<int>, eclass: array<int>, med: int, lo: int, hi: int,
                  ltLo: int, unLo: int, unHi0: int, gtHi0: int, ghost was: seq<int>)
    returns (unHi: int, gtHi: int)
    requires fmap != eclass && Split(was, fmap[..], eclass[..], med, lo, hi, ltLo, unLo, unHi0, gtHi0)
    requires unLo <= unHi0 ==> eclass[fmap[unLo]] > med
    modifies fmap
    ensures Split(was, fmap[..], eclass[..], med, lo, hi, ltLo, unLo, unHi, gtHi)
    ensures unHi <= unHi0 && (unLo <= unHi ==> eclass[fmap[unHi]] < med && eclass[fmap[unLo]] > med)
  {
    unHi, gtHi := unHi0, gtHi0;
    while unLo <= unHi && eclass[fmap[unHi]] >= med
      invariant Split(was, fmap[..], eclass[..], med, lo, hi, ltLo, unLo, unHi, gtHi)
      invariant unHi <= unHi0 && (unLo <= unHi ==> eclass[fmap[unLo]] > med)
      decreases unHi - unLo
    {
      if eclass[fmap[unHi]] == med {
        SwapRearranged(was, fmap[..], lo, hi, unHi, gtHi);
        Swap(fmap, unHi, gtHi);
        gtHi := gtHi - 1;
      }
      unHi := unHi - 1;
    }
  }

  /** The vector swap of the blocks of `n` entries at `p1` and `p2`. */
  ghost function BlocksSwapped(fm: seq<int>, p1: int, p2: int, n: nat): seq<int>
    requires 0 <= p1 && p1 + n <= p2 && p2 + n <= |fm|
    decreases n
  {
    if n == 0 then fm else BlocksSwapped(fm[p1 := fm[p2]][p2 := fm[p1]], p1 + 1, p2 + 1, n - 1)
  }

  ghost function SwappedFrom(p1: int, p2: int, n: nat, p: int): int {
    if p1 <= p < p1 + n then p - p1 + p2 else if p2 <= p < p2 + n then p - p2 + p1 else p
  }

  lemma {:induction false} BlocksSwappedAt(fm: seq<int>, p1: int, p2: int, n: nat, p: int)
    requires 0 <= p1 && p1 + n <= p2 && p2 + n <= |fm|
    requires 0 <= p < |fm|
    ensures var r := BlocksSwapped(fm, p1, p2, n);
            && |r| == |fm|
            && r[p] == fm[SwappedFrom(p1, p2, n, p)]
    decreases n
  {
    if n > 0 {
      BlocksSwappedAt(fm[p1 := fm[p2]][p2 := fm[p1]], p1 + 1, p2 + 1, n - 1, p);
    }
  }

  lemma {:induction false} BlocksSwappedRearranged(was: seq<int>, fm: seq<int>, p1: int, p2: int, n: nat, lo: int, hi: int)
    requires Rearranged(was, fm, lo, hi) && lo <= p1 && p1 + n <= p2 && p2 + n <= hi + 1
    ensures Rearranged(was, BlocksSwapped(fm, p1, p2, n), lo, hi)
    decreases n
  {
    if n > 0 {
      SwapRearranged(was, fm, lo, hi, p1, p2);
      BlocksSwappedRearranged(was, fm[p1 := fm[p2]][p2 := fm[p1]], p1 + 1, p2 + 1, n - 1, lo, hi);
    }
  }

  method BlockSwap(fmap: array<int>, p1: int, p2: int, n: nat)
    requires 0 <= p1 && p1 + n <= p2 && p2 + n <= fmap.Length
    modifies fmap
    ensures fmap[..] == BlocksSwapped(old(fmap[..]), p1, p2, n)
  {
    var k := 0;
    while k < n
      invariant 0 <= k <= n
      invariant BlocksSwapped(fmap[..], p1 + k, p2 + k, n - k) == BlocksSwapped(old(fmap[..]), p1, p2, n)
    {
      Swap(fmap, p1 + k, p2 + k);
      k := k + 1;
    }
  }

  /** Entries below `n` precede `med` in class, those in (n, m) equal it, those from `m` on follow it. */
  ghost predicate Parted(fm: seq<int>, e: seq<int>, med: int, lo: int, hi: int, n: int, m: int) {
    && Indexes(fm, e, lo, hi) && lo - 1 <= n < m <= hi + 1
    && (forall p :: lo <= p <= n ==> e[fm[p]] < med)
    && (forall p :: n < p < m ==> e[fm[p]] == med)
    && (forall p :: m <= p <= hi ==> e[fm[p]] > med)
  }

  lemma LowBlocksJoined(was: seq<int>, fm: seq<int>, e: seq<int>, med: int, lo: int, hi: int, ltLo: int, unLo: int, gtHi: int)
    requires Split(was, fm, e, med, lo, hi, ltLo, unLo, unLo - 1, gtHi)
    ensures var n := Min(ltLo - lo, unLo - ltLo);
            var r := BlocksSwapped(fm, lo, unLo - n, n);
            && Rearranged(was, r, lo, hi) && Indexes(r, e, lo, hi)
            && (forall p :: lo <= p < lo + unLo - ltLo ==> e[r[p]] < med)
            && (forall p :: lo + unLo - ltLo <= p < unLo ==> e[r[p]] == med)
            && (forall p :: unLo <= p <= gtHi ==> e[r[p]] > med)
            && (forall p :: gtHi < p <= hi ==> e[r[p]] == med)
  {
    var n := Min(ltLo - lo, unLo - ltLo);
    BlocksSwappedRearranged(was, fm, lo, unLo - n, n, lo, hi);
    var r := BlocksSwapped(fm, lo, unLo - n, n);
    forall p | lo <= p <= hi
      ensures r[p] == fm[SwappedFrom(lo, unLo - n, n, p)]
    {
      BlocksSwappedAt(fm, lo, unLo - n, n, p);
    }
  }

  lemma HighBlocksJoined(was: seq<int>, fm: seq<int>, e: seq<int>, med: int, lo: int, hi: int, mid: int, unLo: int, gtHi: int)
    requires Rearranged(was, fm, lo, hi) && Indexes(fm, e, lo, hi) && lo <= mid <= unLo <= gtHi + 1 <= hi + 1
    requires forall p :: lo <= p < mid ==> e[fm[p]] < med
    requires forall p :: mid <= p < unLo ==> e[fm[p]] == med
    requires forall p :: unLo <= p <= gtHi ==> e[fm[p]] > med
    requires forall p :: gtHi < p <= hi ==> e[fm[p]] == med
    requires mid < unLo || gtHi < hi
    ensures var m := Min(hi - gtHi, gtHi - (unLo - 1));
            var r := BlocksSwapped(fm, unLo, hi - m + 1, m);
            Rearranged(was, r, lo, hi) && Parted(r, e, med, lo, hi, mid - 1, hi - (gtHi - (unLo - 1)) + 1)
  {
    var m := Min(hi - gtHi, gtHi - (unLo - 1));
    BlocksSwappedRearranged(was, fm, unLo, hi - m + 1, m, lo, hi);
    var r := BlocksSwapped(fm, unLo, hi - m + 1, m);
    forall p | lo <= p <= hi
      ensures r[p] == fm[SwappedFrom(unLo, hi - m + 1, m, p)]
    {
      BlocksSwappedAt(fm, unLo, hi - m + 1, m, p);
    }
  }

  function Min(a: int, b: int): int { if a < b then a else b }

  /** Both vector swaps together: the equal blocks move from the ends to the middle. */
  lemma BlocksJoined(was: seq<int>, fm: seq<int>, e: seq<int>, med: int, lo: int, hi: int, ltLo: int, unLo: int, gtHi: int)
    requires Split(was, fm, e, med, lo, hi, ltLo, unLo, unLo - 1, gtHi)
    requires exists p :: lo <= p <= hi && e[fm[p]] == med
    ensures var n := Min(ltLo - lo, unLo - ltLo);
            var m := Min(hi - gtHi, gtHi - (unLo - 1));
            var r := BlocksSwapped(fm, lo, unLo - n, n);
            && |r| == |fm|
            && var r' := BlocksSwapped(r, unLo, hi - m + 1, m);
               && Rearranged(was, r', lo, hi)
               && Parted(r', e, med, lo, hi, lo + unLo - ltLo - 1, hi - (gtHi - (unLo - 1)) + 1)
               && lo + unLo - ltLo < hi - (gtHi - (unLo - 1)) + 1
  {
    LowBlocksJoined(was, fm, e, med, lo, hi, ltLo, unLo, gtHi);
    var n := Min(ltLo - lo, unLo - ltLo);
    HighBlocksJoined(was, BlocksSwapped(fm, lo, unLo - n, n), e, med, lo, hi, lo + unLo - ltLo, unLo, gtHi);
  }

  lemma SplitExchange(was: seq<int>, fm: seq<int>, e: seq<int>, med: int,
                      lo: int, hi: int, ltLo: int, unLo: int, unHi: int, gtHi: int)
    requires Split(was, fm, e, med, lo, hi, ltLo, unLo, unHi, gtHi)
    requires unLo <= unHi ==> e[fm[unHi]] < med < e[fm[unLo]]
    ensures 0 <= unLo <= unHi + 1 <= |fm|
    ensures unLo <= unHi ==>
              Split(was, fm[unLo := fm[unHi]][unHi := fm[unLo]], e, med, lo, hi, ltLo, unLo + 1, unHi - 1, gtHi)
  {
    if unLo <= unHi { SwapRearranged(was, fm, lo, hi, unLo, unHi); }
  }

  lemma SplitIndexes(was: seq<int>, fm: seq<int>, e: seq<int>, med: int,
                     lo: int, hi: int, ltLo: int, unLo: int, unHi: int, gtHi: int)
    requires Split(was, fm, e, med, lo, hi, ltLo, unLo, unHi, gtHi)
    ensures unLo <= unHi ==> 0 <= unLo <= unHi < |fm| && 0 <= fm[unLo] < |e| && 0 <= fm[unHi] < |e|
  {
  }

  lemma SplitStart(was: seq<int>, e: seq<int>, med: int, lo: int, hi: int)
    requires lo <= hi && Indexes(was, e, lo, hi)
    ensures Split(was, was, e, med, lo, hi, lo, lo, hi, hi)
  {
  }

  /** The double scan: afterwards every entry of [lo, hi] has been examined. */
  method Sweep(fmap: array<int>, eclass: array<int>, med: int, lo: int, hi: int)
    returns (ltLo: int, unLo: int, gtHi: int)
    requires fmap != eclass && lo <= hi && Indexes(fmap[..], eclass[..], lo, hi)
    modifies fmap
    ensures Split(old(fmap[..]), fmap[..], eclass[..], med, lo, hi, ltLo, unLo, unLo - 1, gtHi)
  {
    hide Split, Rearranged;
    ghost var was, e := fmap[..], eclass[..];
    var unHi;
    ltLo, unLo, unHi, gtHi := lo, lo, hi, hi;
    SplitStart(was, e, med, lo, hi);
    while true
      invariant Split(was, fmap[..], e, med, lo, hi, ltLo, unLo, unHi, gtHi)
      decreases unHi - unLo
    {
      ltLo, unLo := ScanUp(fmap, eclass, med, lo, hi, ltLo, unLo, unHi, gtHi, was);
      unHi, gtHi := ScanDown(fmap, eclass, med, lo, hi, ltLo, unLo, unHi, gtHi, was);
      SplitIndexes(was, fmap[..], e, med, lo, hi, ltLo, unLo, unHi, gtHi);
      SplitExchange(was, fmap[..], e, med, lo, hi, ltLo, unLo, unHi, gtHi);
      if unLo > unHi { return; }
      Swap(fmap, unLo, unHi);
      unLo, unHi := unLo + 1, unHi - 1;
    }
  }

  /**
   * Partition [lo, hi] around the class of one of its entries. `same` reports the source's early
   * exit: every entry has class `med`, and nothing is pushed.
   */
  method Partition(fmap: array<int>, eclass: array<int>, med: int, lo: int, hi: int, ghost at: int)
    returns (same: bool, n: int, m: int)
    requires fmap != eclass && lo <= hi && Indexes(fmap[..], eclass[..], lo, hi)
    requires lo <= at <= hi && eclass[fmap[at]] == med
    modifies fmap
    ensures Rearranged(old(fmap[..]), fmap[..], lo, hi)
    ensures Parted(fmap[..], eclass[..], med, lo, hi, n, m)
    ensures n + 1 < m && (same ==> n == lo - 1 && m == hi + 1)
  {
    hide Split, Rearranged, Parted, Indexes, BlocksSwapped;
    IndexedAt(fmap[..], eclass[..], lo, hi, at);
    ghost var was, e := fmap[..], eclass[..];
    var ltLo, unLo, gtHi := Sweep(fmap, eclass, med, lo, hi);
    var unHi := unLo - 1;
    SweepDone(was, fmap[..], e, med, lo, hi, ltLo, unLo, gtHi, at);
    if gtHi < ltLo {
      return true, lo - 1, hi + 1;
    }
    n := Min(ltLo - lo, unLo - ltLo);
    BlockSwap(fmap, lo, unLo - n, n);
    m := Min(hi - gtHi, gtHi - unHi);
    BlockSwap(fmap, unLo, hi - m + 1, m);
    same, n, m := false, lo + unLo - ltLo - 1, hi - (gtHi - unHi) + 1;
  }

  lemma IndexedAt(fm: seq<int>, e: seq<int>, lo: int, hi: int, p: int)
    requires Indexes(fm, e, lo, hi) && lo <= p <= hi
    ensures 0 <= p < |fm| && 0 <= fm[p] < |e|
  {
  }

  lemma SweepDone(was: seq<int>, fm: seq<int>, e: seq<int>, med: int, lo: int, hi: int,
                  ltLo: int, unLo: int, gtHi: int, at: int)
    requires Split(was, fm, e, med, lo, hi, ltLo, unLo, unLo - 1, gtHi)
    requires Indexes(was, e, lo, hi) && lo <= at <= hi && e[was[at]] == med
    ensures gtHi < ltLo ==> Rearranged(was, fm, lo, hi) && Parted(fm, e, med, lo, hi, lo - 1, hi + 1) && lo <= hi
    ensures var n := Min(ltLo - lo, unLo - ltLo);
            var m := Min(hi - gtHi, gtHi - (unLo - 1));
            && 0 <= n && 0 <= lo && lo + n <= unLo - n && unLo <= |fm|
            && 0 <= m && unLo + m <= hi - m + 1 && hi + 1 <= |fm|
            && var r := BlocksSwapped(fm, lo, unLo - n, n);
               && |r| == |fm|
               && var r' := BlocksSwapped(r, unLo, hi - m + 1, m);
                  && Rearranged(was, r', lo, hi)
                  && Parted(r', e, med, lo, hi, lo + unLo - ltLo - 1, hi - (gtHi - (unLo - 1)) + 1)
                  && lo + unLo - ltLo < hi - (gtHi - (unLo - 1)) + 1
  {
    var at' := RearrangedFrom(fm, was, lo, hi, at);
    BlocksJoined(was, fm, e, med, lo, hi, ltLo, unLo, gtHi);
  }

  // ---- the explicit stack ----

  type Range = (int, int)

  ghost function Size(r: Range): int { r.1 - r.0 + 1 }

  ghost predicate InOneRange(stack: seq<Range>, p: int, q: int) {
    exists k :: 0 <= k < |stack| && stack[k].0 <= p && q <= stack[k].1
  }

  /** Entries are in class order except possibly inside a range still waiting on the stack. */
  ghost predicate OrderedExcept(fm: seq<int>, e: seq<int>, lo: int, hi: int, stack: seq<Range>)
    requires Indexes(fm, e, lo, hi)
  {
    forall p, q :: lo <= p < q <= hi ==> e[fm[p]] <= e[fm[q]] || InOneRange(stack, p, q)
  }

  ghost predicate Waiting(stack: seq<Range>, lo: int, hi: int) {
    && (forall k :: 0 <= k < |stack| ==> lo <= stack[k].0 <= stack[k].1 + 1 <= hi + 1)
    && (forall j, k :: 0 <= j < k < |stack| ==> stack[j].1 < stack[k].0 || stack[k].1 < stack[j].0)
  }

  /** The k-th range from the bottom holds at most N / 2^k entries. */
  ghost predicate Halving(stack: seq<Range>, N: int) {
    && (forall k :: 0 <= k < |stack| ==> Size(stack[k]) * Pow2(k) <= N)
    && (|stack| >= 2 ==> (SMALL_THRESH + 1) * Pow2(|stack| - 2) <= N)
  }

  ghost function Work(stack: seq<Range>): int {
    if stack == [] then 0 else Work(stack[..|stack| - 1]) + 2 * Size(stack[|stack| - 1]) + 1
  }

  lemma {:induction false} WorkPositive(stack: seq<Range>, lo: int, hi: int)
    requires Waiting(stack, lo, hi)
    ensures Work(stack) >= |stack|
  {
    if stack != [] { WorkPositive(stack[..|stack| - 1], lo, hi); }
  }

  lemma WorkPush(stack: seq<Range>, a: Range, b: Range)
    ensures Work(stack + [a] + [b]) == Work(stack) + 2 * Size(a) + 2 * Size(b) + 2
  {
    var t := stack + [a] + [b];
    assert t[..|t| - 1] == stack + [a];
    assert (stack + [a])[..|stack|] == stack;
  }

  /** A pair not inside the popped range keeps its order however that range is rearranged. */
  lemma PairOutside(fm: seq<int>, fm': seq<int>, e: seq<int>, lo: int, hi: int,
                    rest: seq<Range>, l: int, h: int, p: int, q: int)
    requires Indexes(fm, e, lo, hi) && Indexes(fm', e, lo, hi)
    requires Waiting(rest + [(l, h)], lo, hi) && OrderedExcept(fm, e, lo, hi, rest + [(l, h)])
    requires Rearranged(fm, fm', l, h) && lo <= l && h <= hi
    requires lo <= p < q <= hi && !(l <= p && q <= h)
    ensures e[fm'[p]] <= e[fm'[q]] || InOneRange(rest, p, q)
  {
    var p', q' := p, q;
    if l <= p <= h { p' := RearrangedFrom(fm, fm', l, h, p); }
    if l <= q <= h { q' := RearrangedFrom(fm, fm', l, h, q); }
    assert p' < q' && fm[p'] == fm'[p] && fm[q'] == fm'[q];
    if e[fm[p']] > e[fm[q']] {
      var old' := rest + [(l, h)];
      assert old'[|rest|] == (l, h);
      assert InOneRange(old', p', q');
      var k :| 0 <= k < |old'| && old'[k].0 <= p' && q' <= old'[k].1;
      assert k < |rest| && rest[k] == old'[k];
      assert rest[k].0 <= p && q <= rest[k].1;
    }
  }

  lemma InOneRangeOfMore(rest: seq<Range>, sub: seq<Range>, p: int, q: int)
    requires InOneRange(rest, p, q) || InOneRange(sub, p, q)
    ensures InOneRange(rest + sub, p, q)
  {
    var both := rest + sub;
    if InOneRange(rest, p, q) {
      var k :| 0 <= k < |rest| && rest[k].0 <= p && q <= rest[k].1;
      assert both[k] == rest[k];
    } else {
      var k :| 0 <= k < |sub| && sub[k].0 <= p && q <= sub[k].1;
      assert both[|rest| + k] == sub[k];
    }
  }

  /** Refining the popped range (l, h) refines the whole: `sub` is what is pushed in its place. */
  lemma PopRefines(fm: seq<int>, fm': seq<int>, e: seq<int>, lo: int, hi: int,
                   rest: seq<Range>, l: int, h: int, sub: seq<Range>)
    requires Indexes(fm, e, lo, hi) && Indexes(fm', e, lo, hi)
    requires Waiting(rest + [(l, h)], lo, hi) && OrderedExcept(fm, e, lo, hi, rest + [(l, h)])
    requires Rearranged(fm, fm', l, h) && lo <= l && h <= hi
    requires forall p, q :: l <= p < q <= h ==> e[fm'[p]] <= e[fm'[q]] || InOneRange(sub, p, q)
    ensures OrderedExcept(fm', e, lo, hi, rest + sub)
  {
    forall p, q | lo <= p < q <= hi && e[fm'[p]] > e[fm'[q]]
      ensures InOneRange(rest + sub, p, q)
    {
      hide OrderedExcept, Waiting, InOneRange, Rearranged;
      if !(l <= p && q <= h) { PairOutside(fm, fm', e, lo, hi, rest, l, h, p, q); }
      InOneRangeOfMore(rest, sub, p, q);
    }
  }

  /** Because the smaller part is popped first, a 32-bit range never fills the 100-entry stack. */
  lemma StackStaysShort(stack: seq<Range>, N: int)
    requires Halving(stack, N) && N < 0x8000_0000
    ensures |stack| < 34
  {
    Pow2Values();
    if |stack| >= 34 { Pow2Monotone(32, |stack| - 2); }
  }

  lemma HalvingPush(rest: seq<Range>, top: Range, big: Range, small: Range, N: int)
    requires Halving(rest + [top], N) && Size(top) > SMALL_THRESH
    requires 0 <= Size(small) <= Size(big) && Size(small) + Size(big) < Size(top)
    ensures Halving(rest + [big] + [small], N)
  {
    var s := rest + [top];
    var t := rest + [big] + [small];
    var c := Pow2(|rest|);
    assert s[|rest|] == top && Size(top) * c <= N;
    Scale(Size(big), Size(top), c);
    Scale(2 * Size(small), Size(top), c);
    Scale(SMALL_THRESH + 1, Size(top), c);
    assert Size(small) * (2 * c) == (2 * Size(small)) * c;
    forall k | 0 <= k < |t|
      ensures Size(t[k]) * Pow2(k) <= N
    {
      if k < |rest| {
        assert t[k] == s[k];
      } else {
        assert t[k] == if k == |rest| then big else small;
      }
    }
  }

  lemma HalvingPop(rest: seq<Range>, top: Range, N: int)
    requires Halving(rest + [top], N)
    ensures Halving(rest, N)
  {
    var s := rest + [top];
    forall k | 0 <= k < |rest|
      ensures Size(rest[k]) * Pow2(k) <= N
    {
      assert rest[k] == s[k];
    }
    if |rest| >= 2 { assert Pow2(|s| - 2) == 2 * Pow2(|rest| - 2); }
  }

  lemma PushedRanges(rest: seq<Range>, lo: int, hi: int, l: int, h: int, a: Range, b: Range)
    requires Waiting(rest + [(l, h)], lo, hi)
    requires l <= a.0 <= a.1 + 1 <= h + 1 && l <= b.0 <= b.1 + 1 <= h + 1
    requires a.1 < b.0 || b.1 < a.0
    ensures Waiting(rest + [a] + [b], lo, hi) && Waiting(rest, lo, hi)
  {
    var s := rest + [(l, h)];
    assert s[|rest|] == (l, h);
    forall k | 0 <= k < |rest|
      ensures lo <= rest[k].0 <= rest[k].1 + 1 <= hi + 1 && (rest[k].1 < l || h < rest[k].0)
      ensures forall j :: 0 <= j < k ==> rest[j].1 < rest[k].0 || rest[k].1 < rest[j].0
    {
      assert s[k] == rest[k];
      forall j | 0 <= j < k
        ensures rest[j].1 < rest[k].0 || rest[k].1 < rest[j].0
      {
        assert s[j] == rest[j];
      }
    }
  }

  /** One partitioning round: the two outer parts replace the popped range, the larger one deeper. */
  lemma PartedRefines(fm: seq<int>, fm': seq<int>, e: seq<int>, lo: int, hi: int,
                      rest: seq<Range>, l: int, h: int, med: int, n: int, m: int, a: Range, b: Range)
    requires Indexes(fm, e, lo, hi) && Indexes(fm', e, lo, hi) && lo <= l && h <= hi
    requires Waiting(rest + [(l, h)], lo, hi) && OrderedExcept(fm, e, lo, hi, rest + [(l, h)])
    requires Rearranged(fm, fm', l, h) && Parted(fm', e, med, l, h, n, m)
    requires (a, b) == ((l, n), (m, h)) || (a, b) == ((m, h), (l, n))
    ensures OrderedExcept(fm', e, lo, hi, rest + [a] + [b])
  {
    var sub := [a, b];
    forall p, q | l <= p < q <= h
      ensures e[fm'[p]] <= e[fm'[q]] || InOneRange(sub, p, q)
    {
      if q <= n || m <= p {
        var k := if (q <= n) == (a == (l, n)) then 0 else 1;
        assert sub[k].0 <= p && q <= sub[k].1;
      }
    }
    PopRefines(fm, fm', e, lo, hi, rest, l, h, sub);
    assert rest + sub == rest + [a] + [b];
  }

  /** The loop invariant of fallbackQSort3 over the range [lo, hi]. */
  ghost predicate Sorting(was: seq<int>, fm: seq<int>, e: seq<int>, lo: int, hi: int, stack: seq<Range>) {
    && Rearranged(was, fm, lo, hi) && Indexes(fm, e, lo, hi)
    && Waiting(stack, lo, hi) && Halving(stack, hi - lo + 1)
    && OrderedExcept(fm, e, lo, hi, stack)
  }

  lemma RearrangedWithin(was: seq<int>, fm: seq<int>, fm': seq<int>, lo: int, hi: int, l: int, h: int)
    requires Rearranged(was, fm, lo, hi) && Rearranged(fm, fm', l, h) && lo <= l && h <= hi
    ensures Rearranged(was, fm', lo, hi)
  {
  }

  lemma PopSorted(was: seq<int>, fm: seq<int>, fm': seq<int>, e: seq<int>, lo: int, hi: int, rest: seq<Range>, top: Range)
    requires Sorting(was, fm, e, lo, hi, rest + [top])
    requires Rearranged(fm, fm', top.0, top.1) && Indexes(fm', e, top.0, top.1) && Ascending(fm', e, top.0, top.1)
    ensures Sorting(was, fm', e, lo, hi, rest)
    ensures 0 <= Work(rest) < Work(rest + [top])
  {
    var l, h := top.0, top.1;
    var stack := rest + [top];
    assert stack[|rest|] == (l, h) && stack[..|rest|] == rest;
    PushedRanges(rest, lo, hi, l, h, (l, l - 1), (l, l - 1));
    RearrangedIndexes(fm, fm', e, l, h, lo, hi);
    RearrangedWithin(was, fm, fm', lo, hi, l, h);
    PopRefines(fm, fm', e, lo, hi, rest, l, h, []);
    assert rest + [] == rest;
    HalvingPop(rest, top, hi - lo + 1);
    WorkPositive(rest, lo, hi);
  }

  lemma PopParted(was: seq<int>, fm: seq<int>, fm': seq<int>, e: seq<int>, lo: int, hi: int, rest: seq<Range>, top: Range,
                  med: int, n: int, m: int, big: Range, small: Range)
    requires Sorting(was, fm, e, lo, hi, rest + [top]) && n + 1 < m && Size(top) > SMALL_THRESH
    requires Rearranged(fm, fm', top.0, top.1) && Parted(fm', e, med, top.0, top.1, n, m)
    requires (big, small) == if n - top.0 > top.1 - m then ((top.0, n), (m, top.1)) else ((m, top.1), (top.0, n))
    ensures Sorting(was, fm', e, lo, hi, rest + [big] + [small])
    ensures 0 <= Work(rest + [big] + [small]) < Work(rest + [top])
  {
    var l, h := top.0, top.1;
    var stack := rest + [top];
    assert stack[|rest|] == (l, h) && stack[..|rest|] == rest;
    RearrangedIndexes(fm, fm', e, l, h, lo, hi);
    RearrangedWithin(was, fm, fm', lo, hi, l, h);
    PushedRanges(rest, lo, hi, l, h, big, small);
    PartedRefines(fm, fm', e, lo, hi, rest, l, h, med, n, m, big, small);
    HalvingPush(rest, top, big, small, hi - lo + 1);
    WorkPush(rest, big, small);
    WorkPositive(rest, lo, hi);
  }

  lemma SortingStarts(fm: seq<int>, e: seq<int>, lo: int, hi: int)
    requires lo <= hi && Indexes(fm, e, lo, hi)
    ensures Sorting(fm, fm, e, lo, hi, [(lo, hi)])
  {
    var stack := [(lo, hi)];
    forall p, q | lo <= p < q <= hi
      ensures InOneRange(stack, p, q)
    {
      assert stack[0].0 <= p && q <= stack[0].1;
    }
  }

  lemma SortingTop(was: seq<int>, fm: seq<int>, e: seq<int>, lo: int, hi: int, stack: seq<Range>)
    requires Sorting(was, fm, e, lo, hi, stack) && hi < 0x7fff_ffff
    ensures |stack| < STACK_SIZE - 1
    ensures |stack| > 0 ==> var top := stack[|stack| - 1]; top.0 <= top.1 + 1 && Indexes(fm, e, top.0, top.1)
    ensures |stack| == 0 ==> Rearranged(was, fm, lo, hi) && Indexes(fm, e, lo, hi) && Ascending(fm, e, lo, hi)
  {
    StackStaysShort(stack, hi - lo + 1);
  }

  /** The body of the main loop for one popped range: sort it outright, or partition it in three. */
  method SortOrSplit(fmap: array<int>, eclass: array<int>, lo: int, hi: int, r0: int)
    returns (split: bool, n: int, m: int, r: int, ghost med: int)
    requires fmap != eclass && lo <= hi + 1 && Indexes(fmap[..], eclass[..], lo, hi)
    modifies fmap
    ensures Rearranged(old(fmap[..]), fmap[..], lo, hi) && Indexes(fmap[..], eclass[..], lo, hi)
    ensures !split ==> Ascending(fmap[..], eclass[..], lo, hi)
    ensures split ==> hi - lo >= SMALL_THRESH && n + 1 < m && Parted(fmap[..], eclass[..], med, lo, hi, n, m)
  {
    split, n, m, r, med := false, 0, 0, r0, 0;
    if hi - lo < SMALL_THRESH {
      SimpleSort(fmap, eclass, lo, hi);
      return;
    }
    r := (r * 7621 + 1) % 32768;
    var at := if r % 3 == 0 then lo else if r % 3 == 1 then (lo + hi) / 2 else hi;
    var pivot := eclass[fmap[at]];
    var same;
    same, n, m := Partition(fmap, eclass, pivot, lo, hi, at);
    split, med := !same, pivot;
  }

  /**
   * fallbackQSort3: the range ends in class order, as a rearrangement of what it held. The source's
   * assertion 1004 (stack nearly full) is proved never to fire on any range a 32-bit index can address.
   */
  method QSort3(fmap: array<int>, eclass: array<int>, loSt: int, hiSt: int)
    requires fmap != eclass && fmap.Length < 0x8000_0000 && loSt <= hiSt
    requires Indexes(fmap[..], eclass[..], loSt, hiSt)
    modifies fmap
    ensures Rearranged(old(fmap[..]), fmap[..], loSt, hiSt) && Indexes(fmap[..], eclass[..], loSt, hiSt)
    ensures Ascending(fmap[..], eclass[..], loSt, hiSt)
  {
    ghost var was, e := fmap[..], eclass[..];
    var r := 0;
    var stack: seq<Range> := [(loSt, hiSt)];
    SortingStarts(was, e, loSt, hiSt);
    hide Sorting;
    while |stack| > 0
      invariant Sorting(was, fmap[..], e, loSt, hiSt, stack)
      decreases Work(stack)
    {
      SortingTop(was, fmap[..], e, loSt, hiSt, stack);
      assert |stack| < STACK_SIZE - 1;
      ghost var before := fmap[..];
      var top := stack[|stack| - 1];
      assert stack == stack[..|stack| - 1] + [top];
      stack := stack[..|stack| - 1];
      var lo, hi := top.0, top.1;
      var split, n, m;
      ghost var med;
      split, n, m, r, med := SortOrSplit(fmap, eclass, lo, hi, r);
      if split {
        var big, small := (lo, n), (m, hi);
        if !(n - lo > hi - m) { big, small := (m, hi), (lo, n); }
        PopParted(was, before, fmap[..], e, loSt, hiSt, stack, top, med, n, m, big, small);
        stack := stack + [big] + [small];
      } else {
        PopSorted(was, before, fmap[..], e, loSt, hiSt, stack, top);
      }
    }
    SortingTop(was, fmap[..], e, loSt, hiSt, stack);
  }
}
