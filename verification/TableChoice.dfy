/** Choosing coding tables and selectors for a block's symbols (libc/compress.c:243-454). */
module TableChoice {
  import opened Words
  import opened HuffmanTree
  import opened HuffmanLengths
  import opened HuffmanOptimal
  import opened CanonicalCode
  import opened BlockFormat
  import HuffmanHeap

  const LESSER_ICOST := 0
  const GREATER_ICOST := 15
  const ITERATIONS := 4
  const MAX_CHOSEN := 17
  const MAX_SYMBOLS := GROUP_SIZE * MAX_SELECTORS

  type Lengths = array<Byte>

  /** Six tables of code lengths, as separate pieces of memory. */
  ghost predicate Six(len: seq<Lengths>) {
    |len| == MAX_GROUPS && Distinct(len) && forall t :: 0 <= t < MAX_GROUPS ==> len[t].Length == MAX_ALPHA
  }

  ghost predicate SixCounts(rfreq: seq<array<int>>) {
    |rfreq| == MAX_GROUPS && Distinct(rfreq) && forall t :: 0 <= t < MAX_GROUPS ==> rfreq[t].Length == MAX_ALPHA
  }

  /** Two tables, and one more from each of 200, 600, 1200 and 2400 symbols on. */
  function Groups(nMTF: nat): (g: nat)
    ensures 2 <= g <= MAX_GROUPS
    ensures (g > 2 <==> nMTF >= 200) && (g > 3 <==> nMTF >= 600) && (g > 4 <==> nMTF >= 1200) && (g > 5 <==> nMTF >= 2400)
  {
    if nMTF < 200 then 2 else if nMTF < 600 then 3 else if nMTF < 1200 then 4 else if nMTF < 2400 then 5 else 6
  }

  /** C division, truncating. */
  function Quotient32(a: int, b: int): int
    requires b > 0
  {
    if a >= 0 then a / b else -(-a / b)
  }

  /** A table that costs nothing for the symbols from lo up to hi, and GREATER_ICOST for all others. */
  ghost predicate Prefers(lens: seq<Byte>, alphaSize: nat, lo: int, hi: int) {
    alphaSize <= |lens| && forall v :: 0 <= v < alphaSize ==> lens[v] == if lo <= v < hi then LESSER_ICOST else GREATER_ICOST
  }

  method PreferRange(lens: Lengths, gs: int, ge: int, alphaSize: nat)
    requires alphaSize <= lens.Length
    modifies lens
    ensures forall v :: 0 <= v < alphaSize ==> lens[v] == if gs <= v <= ge then LESSER_ICOST else GREATER_ICOST
  {
    for v := 0 to alphaSize
      invariant forall k :: 0 <= k < v ==> lens[k] == if gs <= k <= ge then LESSER_ICOST else GREATER_ICOST
    {
      lens[v] := if gs <= v <= ge then LESSER_ICOST else GREATER_ICOST;
    }
  }

  /** e is the first end at which the symbols from lo on make up the target, or the end of the alphabet. */
  ghost predicate Reaches(freq: seq<int>, lo: nat, target: int, alphaSize: nat, e: nat) {
    && lo <= e <= alphaSize <= |freq| && (e == alphaSize || Total(freq, e) - Total(freq, lo) >= target)
    && forall k :: lo <= k < e ==> Total(freq, k) - Total(freq, lo) < target
  }

  ghost function Target(freq: seq<int>, nMTF: nat, t: nat, lo: nat): int
    requires lo <= |freq|
  {
    Quotient32(nMTF - Total(freq, lo), t + 1)
  }

  /**
   * The range of table t: an even share, for it and the tables before it, of what is left from lo on. Every other table
   * between the first and the last gives its last symbol back, unless it has no other.
   */
  ghost predicate FairShare(freq: seq<int>, nMTF: nat, nGroups: nat, alphaSize: nat, t: nat, lo: nat, hi: nat) {
    && lo <= |freq|
    && exists e: nat :: Reaches(freq, lo, Target(freq, nMTF, t, lo), alphaSize, e)
        && hi == if lo + 1 < e && 0 < t < nGroups - 1 && (nGroups - t) % 2 == 0 then e - 1 else e
  }

  /** The initial tables, each preferring one range of symbols. */
  ghost predicate Parted(tables: seq<seq<Byte>>, freq: seq<int>, nMTF: nat, nGroups: nat, alphaSize: nat, bounds: seq<nat>) {
    && nGroups <= |tables| && |bounds| == nGroups + 1 && bounds[nGroups] == 0 && bounds[0] <= alphaSize
    && forall t :: 0 <= t < nGroups ==>
        FairShare(freq, nMTF, nGroups, alphaSize, t, bounds[t + 1], bounds[t]) && Prefers(tables[t], alphaSize, bounds[t + 1], bounds[t])
  }

  lemma ShareOf(freq: seq<int>, nMTF: nat, nGroups: nat, alphaSize: nat, t: nat, lo: nat, e: nat, hi: nat)
    requires lo <= |freq| && Reaches(freq, lo, Target(freq, nMTF, t, lo), alphaSize, e)
    requires hi == if lo + 1 < e && 0 < t < nGroups - 1 && (nGroups - t) % 2 == 0 then e - 1 else e
    ensures FairShare(freq, nMTF, nGroups, alphaSize, t, lo, hi)
  {
  }

  /** The initial tables: each prefers its share of the symbols, and each range begins where the one of the next table ends. */
  method InitialTables(len: seq<Lengths>, mtfFreq: seq<int>, nMTF: nat, nGroups: nat, alphaSize: nat) returns (ghost bounds: seq<nat>)
    requires Six(len) && 0 < alphaSize <= MAX_ALPHA && |mtfFreq| == MAX_ALPHA && nGroups <= MAX_GROUPS
    modifies len
    ensures Parted(Snapshot(len, alphaSize), mtfFreq, nMTF, nGroups, alphaSize, bounds)
  {
    hide FairShare, Prefers, Total;
    TotalNone(mtfFreq);
    var nPart, remF, gs := nGroups, nMTF as int, 0;
    bounds := seq(nGroups + 1, _ => 0);
    while nPart > 0
      invariant 0 <= gs <= alphaSize && 0 <= nPart <= nGroups
      invariant |bounds| == nGroups + 1 && bounds[nGroups] == 0 && bounds[nPart] == gs && remF == nMTF - Total(mtfFreq, gs)
      invariant forall t :: nPart <= t < nGroups ==> FairShare(mtfFreq, nMTF, nGroups, alphaSize, t, bounds[t + 1], bounds[t])
      invariant forall t :: nPart <= t < nGroups ==> Prefers(len[t][..alphaSize], alphaSize, bounds[t + 1], bounds[t])
    {
      ghost var was := bounds;
      var ge, aFreq := NextRange(mtfFreq, gs, remF, nPart, nMTF, nGroups, alphaSize);
      PreferOne(len, nPart, gs, ge, nGroups, alphaSize, was);
      bounds := bounds[nPart - 1 := ge + 1];
      nPart := nPart - 1;
      gs := ge + 1;
      remF := remF - aFreq;
    }
  }

  lemma TotalNone(f: seq<int>)
    ensures Total(f, 0) == 0
  {
  }

  /** The range of the next table: the last symbol in it, and how often its symbols occur. */
  method NextRange(mtfFreq: seq<int>, gs: nat, remF: int, nPart: nat, ghost nMTF: nat, nGroups: nat, alphaSize: nat) returns (ge: int, aFreq: int)
    requires gs <= alphaSize <= |mtfFreq| && 0 < nPart <= nGroups && remF == nMTF - Total(mtfFreq, gs)
    ensures gs <= ge + 1 <= alphaSize && aFreq == Total(mtfFreq, ge + 1) - Total(mtfFreq, gs)
    ensures FairShare(mtfFreq, nMTF, nGroups, alphaSize, nPart - 1, gs, ge + 1)
  {
    hide FairShare, Quotient32;
    var tFreq := Quotient32(remF, nPart);
    ge, aFreq := gs - 1, 0;
    while aFreq < tFreq && ge < alphaSize - 1
      invariant gs - 1 <= ge <= alphaSize - 1 && aFreq == Total(mtfFreq, ge + 1) - Total(mtfFreq, gs)
      invariant forall k :: gs <= k <= ge ==> Total(mtfFreq, k) - Total(mtfFreq, gs) < tFreq
      decreases alphaSize - ge
    {
      ge := ge + 1;
      aFreq := aFreq + mtfFreq[ge];
    }
    ghost var reach := ge + 1;
    if ge > gs && nPart != nGroups && nPart != 1 && (nGroups - nPart) % 2 == 1 {
      aFreq := aFreq - mtfFreq[ge];
      ge := ge - 1;
    }
    ShareOf(mtfFreq, nMTF, nGroups, alphaSize, nPart - 1, gs, reach, ge + 1);
  }

  /** The other tables stay as they are. */
  method PreferOne(len: seq<Lengths>, nPart: nat, gs: int, ge: int, nGroups: nat, alphaSize: nat, ghost bounds: seq<nat>)
    requires Six(len) && 0 < nPart <= nGroups <= MAX_GROUPS && alphaSize <= MAX_ALPHA && |bounds| == nGroups + 1
    requires forall t :: nPart <= t < nGroups ==> Prefers(len[t][..alphaSize], alphaSize, bounds[t + 1], bounds[t])
    modifies len[nPart - 1]
    ensures Prefers(len[nPart - 1][..alphaSize], alphaSize, gs, ge + 1)
    ensures forall t :: nPart <= t < nGroups ==> Prefers(len[t][..alphaSize], alphaSize, bounds[t + 1], bounds[t])
  {
    PreferRange(len[nPart - 1], gs, ge, alphaSize);
    forall t | nPart <= t < nGroups
      ensures Prefers(len[t][..alphaSize], alphaSize, bounds[t + 1], bounds[t])
    {
      assert len[t] != len[nPart - 1];
      assert len[t][..alphaSize] == old(len[t][..alphaSize]);
    }
  }

  // ---- the cost of a group ----

  ghost predicate InAlphabet(v: seq<int>, alphaSize: nat) {
    forall i :: 0 <= i < |v| ==> 0 <= v[i] < alphaSize
  }

  /** Bits needed to code symbols lo..hi-1 with one table. */
  ghost function Cost(lens: seq<Byte>, v: seq<int>, lo: nat, hi: nat): (c: nat)
    requires lo <= hi <= |v| && InAlphabet(v, |lens|)
    ensures c <= 255 * (hi - lo)
    decreases hi
  {
    if hi == lo then 0 else Cost(lens, v, lo, hi - 1) + lens[v[hi - 1]]
  }

  ghost predicate TablesFor(tables: seq<seq<Byte>>, alphaSize: nat) {
    |tables| == MAX_GROUPS && forall t :: 0 <= t < MAX_GROUPS ==> |tables[t]| == alphaSize
  }

  /** The general way: 16-bit sums, one table after the other for each symbol. */
  method SlowCosts(tables: seq<seq<Byte>>, mtfv: seq<int>, gs: nat, ge: nat, nGroups: nat, alphaSize: nat) returns (cost: seq<int>)
    requires TablesFor(tables, alphaSize) && InAlphabet(mtfv, alphaSize) && nGroups <= MAX_GROUPS
    requires gs <= ge < |mtfv| && ge - gs < GROUP_SIZE
    ensures |cost| == MAX_GROUPS && forall t :: 0 <= t < nGroups ==> cost[t] == Cost(tables[t], mtfv, gs, ge + 1)
  {
    cost := seq(MAX_GROUPS, _ => 0);
    for i := gs to ge + 1
      invariant |cost| == MAX_GROUPS && forall t :: 0 <= t < nGroups ==> cost[t] == Cost(tables[t], mtfv, gs, i)
    {
      ghost var was := cost;
      for t := 0 to nGroups
        invariant |cost| == MAX_GROUPS && forall u :: t <= u < nGroups ==> cost[u] == was[u]
        invariant forall u :: 0 <= u < t ==> cost[u] == Cost(tables[u], mtfv, gs, i + 1)
      {
        cost := cost[t := (cost[t] + tables[t][mtfv[i]]) % 65536];
      }
    }
  }

  /** Two lengths side by side in a 32-bit word. */
  function Pack(hi: Byte, lo: Byte): nat {
    Or(hi * 65536, lo)
  }

  lemma PackAdds(hi: Byte, lo: Byte)
    ensures Pack(hi, lo) == hi * 65536 + lo
  {
    Pow2Values();
    OrIntoClear(hi, lo, 16);
  }

  lemma Unpack(hi: nat, lo: nat)
    requires hi < 65536 && lo < 65536
    ensures (65536 * hi + lo) % 65536 == lo && (65536 * hi + lo) / 65536 == hi
  {
  }

  /** Sum packed lengths over a full group: both halves at once, without a carry between them. */
  method PackedCost(hi: seq<Byte>, lo: seq<Byte>, mtfv: seq<int>, gs: nat, ge: nat) returns (costHi: nat, costLo: nat)
    requires |hi| == |lo| && InAlphabet(mtfv, |hi|) && gs <= ge < |mtfv| && ge - gs < GROUP_SIZE
    ensures costHi == Cost(hi, mtfv, gs, ge + 1) && costLo == Cost(lo, mtfv, gs, ge + 1)
  {
    hide Pack;
    var sum := 0;
    for i := gs to ge + 1
      invariant sum == 65536 * Cost(hi, mtfv, gs, i) + Cost(lo, mtfv, gs, i)
    {
      PackAdds(hi[mtfv[i]], lo[mtfv[i]]);
      sum := (sum + Pack(hi[mtfv[i]], lo[mtfv[i]])) % 0x1_0000_0000;
    }
    Unpack(Cost(hi, mtfv, gs, ge + 1), Cost(lo, mtfv, gs, ge + 1));
    costLo := sum % 65536;
    costHi := sum / 65536;
  }

  /** The fast track for six tables and a full group gives the same sums. */
  method FastCosts(tables: seq<seq<Byte>>, mtfv: seq<int>, gs: nat, ge: nat, alphaSize: nat) returns (cost: seq<int>)
    requires TablesFor(tables, alphaSize) && InAlphabet(mtfv, alphaSize) && gs <= ge < |mtfv| && ge - gs + 1 == GROUP_SIZE
    ensures |cost| == MAX_GROUPS && forall t :: 0 <= t < MAX_GROUPS ==> cost[t] == Cost(tables[t], mtfv, gs, ge + 1)
  {
    hide Cost;
    var c1, c0 := PackedCost(tables[1], tables[0], mtfv, gs, ge);
    var c3, c2 := PackedCost(tables[3], tables[2], mtfv, gs, ge);
    var c5, c4 := PackedCost(tables[5], tables[4], mtfv, gs, ge);
    cost := [c0, c1, c2, c3, c4, c5];
  }

  /** The first of the tables that code symbols lo..hi-1 in the fewest bits. */
  ghost predicate Cheapest(tables: seq<seq<Byte>>, mtfv: seq<int>, lo: nat, hi: nat, nGroups: nat, bt: int) {
    && lo <= hi <= |mtfv| && nGroups <= |tables| && 0 <= bt < nGroups
    && (forall t :: 0 <= t < nGroups ==> InAlphabet(mtfv, |tables[t]|))
    && (forall t :: 0 <= t < nGroups ==> Cost(tables[bt], mtfv, lo, hi) <= Cost(tables[t], mtfv, lo, hi))
    && forall t :: 0 <= t < bt ==> Cost(tables[bt], mtfv, lo, hi) < Cost(tables[t], mtfv, lo, hi)
  }

  /** The table that codes a group in the fewest bits. */
  method BestTable(tables: seq<seq<Byte>>, mtfv: seq<int>, gs: nat, ge: nat, nGroups: nat, alphaSize: nat) returns (bt: int)
    requires TablesFor(tables, alphaSize) && InAlphabet(mtfv, alphaSize) && 1 <= nGroups <= MAX_GROUPS
    requires gs <= ge < |mtfv| && ge - gs < GROUP_SIZE
    ensures Cheapest(tables, mtfv, gs, ge + 1, nGroups, bt)
  {
    hide Cost;
    var cost;
    if nGroups == 6 && 50 == ge - gs + 1 {
      cost := FastCosts(tables, mtfv, gs, ge, alphaSize);
    } else {
      cost := SlowCosts(tables, mtfv, gs, ge, nGroups, alphaSize);
    }
    assert cost[0] <= 255 * (ge + 1 - gs);
    var bc := 999999999;
    bt := -1;
    for t := 0 to nGroups
      invariant t == 0 ==> bc == 999999999 && bt == -1
      invariant t > 0 ==> 0 <= bt < t && bc == cost[bt] && (forall u :: 0 <= u < t ==> bc <= cost[u]) && forall u :: 0 <= u < bt ==> bc < cost[u]
    {
      if cost[t] < bc {
        bc := cost[t];
        bt := t;
      }
    }
  }

  // ---- one round of improvement ----

  ghost function Snapshot(len: seq<Lengths>, alphaSize: nat): (tables: seq<seq<Byte>>)
    requires forall t :: 0 <= t < |len| ==> alphaSize <= len[t].Length
    reads len
    ensures |tables| == |len| && forall t :: 0 <= t < |len| ==> tables[t] == len[t][..alphaSize]
  {
    seq(|len|, t requires 0 <= t < |len| reads len requires alphaSize <= len[t].Length => len[t][..alphaSize])
  }

  /** The tallies of a table: never negative, and no more of them than symbols seen. */
  ghost predicate Tallies(freq: seq<int>, alphaSize: nat, seen: nat) {
    && alphaSize <= |freq| && (forall i :: 0 <= i < alphaSize ==> freq[i] >= 0) && Total(freq, alphaSize) <= seen
  }

  lemma {:induction false} TotalBump(f: seq<int>, i: nat, n: nat)
    requires i < |f| && n <= |f|
    ensures Total(f[i := f[i] + 1], n) == Total(f, n) + (if i < n then 1 else 0)
  {
    if n > 0 { TotalBump(f, i, n - 1); }
  }

  lemma {:induction false} TotalZero(f: seq<int>, n: nat)
    requires n <= |f| && forall i :: 0 <= i < n ==> f[i] == 0
    ensures Total(f, n) == 0
  {
    if n > 0 { TotalZero(f, n - 1); }
  }

  lemma {:induction false} LeavesTotal(f: seq<int>, g: seq<int>, n: nat)
    requires n <= |f| && n <= |g| && forall i :: 0 <= i < n ==> f[i] >= 0 && g[i] == if f[i] == 0 then 1 else f[i]
    ensures Total(g, n) <= Total(f, n) + n
  {
    if n > 0 { LeavesTotal(f, g, n - 1); }
  }

  lemma TalliesFit(f: seq<int>, alphaSize: nat, seen: nat)
    requires Tallies(f, alphaSize, seen) && seen <= MAX_SYMBOLS && alphaSize <= MAX_ALPHA
    ensures Total(StartLeaves(f[..alphaSize]), alphaSize) < WEIGHT_LIMIT
  {
    LeavesTotal(f, StartLeaves(f[..alphaSize]), alphaSize);
  }

  /** How often x occurs among symbols lo..hi-1. */
  ghost function Occurs(v: seq<int>, lo: nat, hi: nat, x: int): nat
    requires lo <= hi <= |v|
    decreases hi
  {
    if hi == lo then 0 else Occurs(v, lo, hi - 1, x) + (if v[hi - 1] == x then 1 else 0)
  }

  lemma {:induction false} OccursSplit(v: seq<int>, lo: nat, mid: nat, hi: nat, x: int)
    requires lo <= mid <= hi <= |v|
    ensures Occurs(v, lo, hi, x) == Occurs(v, lo, mid, x) + Occurs(v, mid, hi, x)
    decreases hi
  {
    if mid < hi { OccursSplit(v, lo, mid, hi - 1, x); }
  }

  function GroupStart(g: nat, n: nat): (s: nat)
    ensures s <= n
  {
    if GROUP_SIZE * g < n then GROUP_SIZE * g else n
  }

  /** How often x occurs in the groups, of the first k, that are coded with table t. */
  ghost function Tally(v: seq<int>, sel: seq<int>, k: nat, t: int, x: int): nat
    requires k <= |sel|
  {
    if k == 0 then 0
    else Tally(v, sel, k - 1, t, x) + (if sel[k - 1] == t then Occurs(v, GroupStart(k - 1, |v|), GroupStart(k, |v|), x) else 0)
  }

  /** The tallies of all tables together. */
  ghost function Tallied(v: seq<int>, sel: seq<int>, k: nat, nGroups: nat, x: int): nat
    requires k <= |sel|
  {
    if nGroups == 0 then 0 else Tallied(v, sel, k, nGroups - 1, x) + Tally(v, sel, k, nGroups - 1, x)
  }

  lemma {:induction false} TalliedNext(v: seq<int>, sel: seq<int>, k: nat, nGroups: nat, x: int)
    requires k < |sel| && 0 <= sel[k]
    ensures Tallied(v, sel, k + 1, nGroups, x)
            == Tallied(v, sel, k, nGroups, x) + (if sel[k] < nGroups then Occurs(v, GroupStart(k, |v|), GroupStart(k + 1, |v|), x) else 0)
  {
    hide Occurs;
    if nGroups > 0 { TalliedNext(v, sel, k, nGroups - 1, x); }
  }

  lemma {:induction false} TalliedNone(v: seq<int>, sel: seq<int>, nGroups: nat, x: int)
    ensures Tallied(v, sel, 0, nGroups, x) == 0
  {
    if nGroups > 0 { TalliedNone(v, sel, nGroups - 1, x); }
  }

  /** Every occurrence of every symbol is tallied exactly once, whatever the selectors. */
  lemma {:induction false} TalliedOnce(v: seq<int>, sel: seq<int>, k: nat, nGroups: nat, x: int)
    requires k <= |sel| && forall g :: 0 <= g < k ==> 0 <= sel[g] < nGroups
    ensures Tallied(v, sel, k, nGroups, x) == Occurs(v, 0, GroupStart(k, |v|), x)
    decreases k
  {
    hide Occurs;
    if k == 0 {
      TalliedNone(v, sel, nGroups, x);
      NoOccurrence(v, x);
    } else {
      TalliedOnce(v, sel, k - 1, nGroups, x);
      TalliedNext(v, sel, k - 1, nGroups, x);
      OccursSplit(v, 0, GroupStart(k - 1, |v|), GroupStart(k, |v|), x);
    }
  }

  lemma NoOccurrence(v: seq<int>, x: int)
    ensures Occurs(v, 0, 0, x) == 0
  {
  }

  lemma {:induction false} TallyMore(v: seq<int>, sel: seq<int>, more: seq<int>, k: nat, t: int, x: int)
    requires k <= |sel|
    ensures Tally(v, sel + more, k, t, x) == Tally(v, sel, k, t, x)
  {
    hide Occurs;
    if k > 0 { TallyMore(v, sel, more, k - 1, t, x); }
  }

  /** The counters hold the tallies of the groups coded so far. */
  ghost predicate Counted(rfreq: seq<array<int>>, v: seq<int>, sel: seq<int>, nGroups: nat, alphaSize: nat)
    requires SixCounts(rfreq) && nGroups <= MAX_GROUPS && alphaSize <= MAX_ALPHA
    reads rfreq
  {
    forall t, x :: 0 <= t < nGroups && 0 <= x < alphaSize ==> rfreq[t][x] == Tally(v, sel, |sel|, t, x)
  }

  method ClearCounts(rfreq: seq<array<int>>, nGroups: nat, alphaSize: nat)
    requires SixCounts(rfreq) && nGroups <= MAX_GROUPS && alphaSize <= MAX_ALPHA
    modifies rfreq
    ensures forall t :: 0 <= t < nGroups ==> Tallies(rfreq[t][..], alphaSize, 0)
    ensures forall t, x :: 0 <= t < nGroups && 0 <= x < alphaSize ==> rfreq[t][x] == 0
  {
    for t := 0 to nGroups
      invariant forall u, x :: 0 <= u < t && 0 <= x < alphaSize ==> rfreq[u][x] == 0
    {
      for v := 0 to alphaSize
        invariant forall u, x :: 0 <= u < t && 0 <= x < alphaSize ==> rfreq[u][x] == 0
        invariant forall k :: 0 <= k < v ==> rfreq[t][k] == 0
      {
        rfreq[t][v] := 0;
      }
    }
    forall t | 0 <= t < nGroups ensures Tallies(rfreq[t][..], alphaSize, 0) { TotalZero(rfreq[t][..], alphaSize); }
  }

  method CountGroup(freq: array<int>, mtfv: seq<int>, gs: nat, ge: nat, alphaSize: nat)
    requires alphaSize <= freq.Length && InAlphabet(mtfv, alphaSize) && gs <= ge < |mtfv| && Tallies(freq[..], alphaSize, gs)
    modifies freq
    ensures Tallies(freq[..], alphaSize, ge + 1)
    ensures forall x :: 0 <= x < alphaSize ==> freq[x] == old(freq[x]) + Occurs(mtfv, gs, ge + 1, x)
  {
    hide Total;
    for i := gs to ge + 1
      invariant Tallies(freq[..], alphaSize, i)
      invariant forall x :: 0 <= x < alphaSize ==> freq[x] == old(freq[x]) + Occurs(mtfv, gs, i, x)
    {
      ghost var was := freq[..];
      TotalBump(was, mtfv[i], alphaSize);
      freq[mtfv[i]] := freq[mtfv[i]] + 1;
      assert freq[..] == was[mtfv[i] := was[mtfv[i]] + 1];
    }
  }

  ghost predicate AllTallies(rfreq: seq<array<int>>, nGroups: nat, alphaSize: nat, seen: nat)
    requires nGroups <= |rfreq|
    reads rfreq
  {
    forall t :: 0 <= t < nGroups ==> Tallies(rfreq[t][..], alphaSize, seen)
  }

  /** Every group's selector is the cheapest table for it. */
  ghost predicate BestSelectors(tables: seq<seq<Byte>>, mtfv: seq<int>, sel: seq<int>, nGroups: nat) {
    && (forall g :: 0 <= g < |sel| ==> 0 <= sel[g] < nGroups)
    && forall g :: 0 <= g < |sel| ==> Cheapest(tables, mtfv, GROUP_SIZE * g, GroupStart(g + 1, |mtfv|), nGroups, sel[g])
  }

  /** Pick the cheapest table for every group, and tally the symbols coded with each. */
  method SelectTables(tables: seq<seq<Byte>>, rfreq: seq<array<int>>, mtfv: seq<int>, nGroups: nat, alphaSize: nat) returns (selector: seq<int>)
    requires TablesFor(tables, alphaSize) && SixCounts(rfreq) && InAlphabet(mtfv, alphaSize) && alphaSize <= MAX_ALPHA
    requires 1 <= nGroups <= MAX_GROUPS && |mtfv| > 0 && AllTallies(rfreq, nGroups, alphaSize, 0)
    requires forall t, x :: 0 <= t < nGroups && 0 <= x < alphaSize ==> rfreq[t][x] == 0
    modifies rfreq
    ensures BestSelectors(tables, mtfv, selector, nGroups)
    ensures GROUP_SIZE * (|selector| - 1) < |mtfv| <= GROUP_SIZE * |selector|
    ensures AllTallies(rfreq, nGroups, alphaSize, |mtfv|) && Counted(rfreq, mtfv, selector, nGroups, alphaSize)
  {
    hide Cheapest, Tallies, Total, Cost, Counted;
    selector := [];
    CountedNone(rfreq, mtfv, nGroups, alphaSize);
    var gs := 0;
    while gs < |mtfv|
      invariant 0 <= gs <= |mtfv| && (gs < |mtfv| ==> gs == GROUP_SIZE * |selector|)
      invariant gs == |mtfv| ==> GROUP_SIZE * (|selector| - 1) < |mtfv| <= GROUP_SIZE * |selector|
      invariant BestSelectors(tables, mtfv, selector, nGroups) && AllTallies(rfreq, nGroups, alphaSize, gs)
      invariant Counted(rfreq, mtfv, selector, nGroups, alphaSize)
    {
      var ge := gs + GROUP_SIZE - 1;
      if ge >= |mtfv| { ge := |mtfv| - 1; }
      var bt := BestTable(tables, mtfv, gs, ge, nGroups, alphaSize);
      CheapestParts(tables, mtfv, gs, ge + 1, nGroups, bt);
      Bump(rfreq, mtfv, selector, gs, ge, nGroups, alphaSize, bt);
      selector := selector + [bt];
      gs := ge + 1;
    }
  }

  lemma CheapestParts(tables: seq<seq<Byte>>, mtfv: seq<int>, lo: nat, hi: nat, nGroups: nat, bt: int)
    requires Cheapest(tables, mtfv, lo, hi, nGroups, bt)
    ensures 0 <= bt < nGroups
  {
  }

  method Bump(rfreq: seq<array<int>>, mtfv: seq<int>, ghost sel: seq<int>, gs: nat, ge: nat, nGroups: nat, alphaSize: nat, bt: nat)
    requires SixCounts(rfreq) && bt < nGroups <= MAX_GROUPS && alphaSize <= MAX_ALPHA && InAlphabet(mtfv, alphaSize)
    requires gs <= ge < |mtfv| && AllTallies(rfreq, nGroups, alphaSize, gs) && Counted(rfreq, mtfv, sel, nGroups, alphaSize)
    requires gs == GroupStart(|sel|, |mtfv|) && ge + 1 == GroupStart(|sel| + 1, |mtfv|)
    modifies rfreq
    ensures AllTallies(rfreq, nGroups, alphaSize, ge + 1) && Counted(rfreq, mtfv, sel + [bt], nGroups, alphaSize)
  {
    hide Total, Occurs;
    CountGroup(rfreq[bt], mtfv, gs, ge, alphaSize);
    assert forall t :: 0 <= t < nGroups && t != bt ==> rfreq[t][..] == old(rfreq[t][..]);
    forall t, x | 0 <= t < nGroups && 0 <= x < alphaSize
      ensures rfreq[t][x] == Tally(mtfv, sel + [bt], |sel| + 1, t, x)
    {
      TallyMore(mtfv, sel, [bt], |sel|, t, x);
      assert t != bt ==> rfreq[t][..][x] == old(rfreq[t][..][x]);
    }
  }

  lemma CountedNone(rfreq: seq<array<int>>, v: seq<int>, nGroups: nat, alphaSize: nat)
    requires SixCounts(rfreq) && nGroups <= MAX_GROUPS && alphaSize <= MAX_ALPHA
    requires forall t, x :: 0 <= t < nGroups && 0 <= x < alphaSize ==> rfreq[t][x] == 0
    ensures Counted(rfreq, v, [], nGroups, alphaSize)
  {
  }

  /** All tables in use are complete codes with lengths up to 17. */
  ghost predicate AllComplete(len: seq<Lengths>, upto: nat, alphaSize: nat)
    requires upto <= |len| && forall t :: 0 <= t < |len| ==> alphaSize <= len[t].Length
    reads len
  {
    forall t :: 0 <= t < upto ==> CompleteLengths(len[t][..alphaSize], MAX_CHOSEN)
  }

  /** No prefix code costs less for these frequencies, as far as they had to be scaled down to keep within 17 bits. */
  ghost predicate Suits(lens: seq<Byte>, freq: seq<int>) {
    exists s: nat :: Optimal(Scaled(StartLeaves(freq), s), lens) && (s > 0 ==> Total(StartLeaves(freq), |freq|) >= Fib(MAX_CHOSEN + 1))
  }

  lemma SuitsAfter(lens: seq<Byte>, freq: seq<int>, s: nat)
    requires Optimal(Scaled(StartLeaves(freq), s), lens) && (s > 0 ==> Total(StartLeaves(freq), |freq|) >= Fib(MAX_CHOSEN + 1))
    ensures Suits(lens, freq)
  {
    hide Optimal, Fib, Total;
  }

  /** Every table is made anew from the tallies of its symbols. */
  method RemakeTables(len: seq<Lengths>, rfreq: seq<array<int>>, nGroups: nat, alphaSize: nat, ghost seen: nat)
    requires Six(len) && SixCounts(rfreq) && nGroups <= MAX_GROUPS && 2 <= alphaSize <= MAX_ALPHA
    requires AllTallies(rfreq, nGroups, alphaSize, seen) && seen <= MAX_SYMBOLS
    modifies len
    ensures AllComplete(len, nGroups, alphaSize)
    ensures forall t :: 0 <= t < nGroups ==> Suits(len[t][..alphaSize], rfreq[t][..alphaSize])
  {
    hide CompleteLengths, Total, StartLeaves, Suits, Optimal, Scaled, Fib;
    for t := 0 to nGroups
      invariant AllComplete(len, t, alphaSize)
      invariant forall u :: 0 <= u < t ==> Suits(len[u][..alphaSize], rfreq[u][..alphaSize])
    {
      TalliesFit(rfreq[t][..], alphaSize, seen);
      assert rfreq[t][..][..alphaSize] == rfreq[t][..alphaSize];
      ghost var was := len;
      label L:
      ghost var scalings := MakeCodeLengths(len[t], rfreq[t], alphaSize, MAX_CHOSEN);
      SuitsAfter(len[t][..alphaSize], rfreq[t][..alphaSize], scalings);
      forall u | 0 <= u < t
        ensures CompleteLengths(len[u][..alphaSize], MAX_CHOSEN) && Suits(len[u][..alphaSize], rfreq[u][..alphaSize])
      {
        assert len[u] != len[t];
        assert len[u][..alphaSize] == old@L(len[u][..alphaSize]);
      }
    }
  }

  /** How often each symbol occurs in the groups coded with table t. */
  ghost function TallyOf(v: seq<int>, sel: seq<int>, t: int, alphaSize: nat): (f: seq<int>)
    ensures |f| == alphaSize && forall x :: 0 <= x < alphaSize ==> f[x] == Tally(v, sel, |sel|, t, x)
  {
    seq(alphaSize, x => Tally(v, sel, |sel|, t, x))
  }

  /** One round: the selectors are the best for the tables before, and the tables after are the best for the selectors. */
  ghost predicate Improves(prev: seq<seq<Byte>>, next: seq<seq<Byte>>, v: seq<int>, sel: seq<int>, nGroups: nat, alphaSize: nat) {
    && nGroups <= |next| && BestSelectors(prev, v, sel, nGroups)
    && forall t :: 0 <= t < nGroups ==> Suits(next[t], TallyOf(v, sel, t, alphaSize))
  }

  /** The rounds, from the initial tables to the last. */
  ghost predicate Rounds(rounds: seq<seq<seq<Byte>>>, sels: seq<seq<int>>, v: seq<int>, nGroups: nat, alphaSize: nat) {
    && |rounds| == |sels| + 1
    && forall i :: 0 <= i < |sels| ==> Improves(rounds[i], rounds[i + 1], v, sels[i], nGroups, alphaSize)
  }

  ghost predicate Initial(tables: seq<seq<Byte>>, freq: seq<int>, nMTF: nat, nGroups: nat, alphaSize: nat) {
    exists bounds :: Parted(tables, freq, nMTF, nGroups, alphaSize, bounds)
  }

  lemma RoundsMore(rounds: seq<seq<seq<Byte>>>, sels: seq<seq<int>>, next: seq<seq<Byte>>, sel: seq<int>, v: seq<int>, nGroups: nat, alphaSize: nat)
    requires Rounds(rounds, sels, v, nGroups, alphaSize) && Improves(rounds[|sels|], next, v, sel, nGroups, alphaSize)
    ensures Rounds(rounds + [next], sels + [sel], v, nGroups, alphaSize)
  {
    hide Improves;
    var r, s := rounds + [next], sels + [sel];
    forall i | 0 <= i < |s|
      ensures Improves(r[i], r[i + 1], v, s[i], nGroups, alphaSize)
    {
      if i < |sels| { assert Improves(rounds[i], rounds[i + 1], v, sels[i], nGroups, alphaSize); }
    }
  }

  /** The tables are made for the symbols that are coded with them, and those were shared out as was best before. */
  ghost predicate Fitted(tables: seq<seq<Byte>>, sel: seq<int>, v: seq<int>, alphaSize: nat) {
    exists prev :: Improves(prev, tables, v, sel, |tables|, alphaSize)
  }

  /**
   * Four rounds of improvement. Whatever the frequencies, the result is usable: one selector per group,
   * each naming a table, every table a complete code with lengths 1 to 17. The tables are those of the last round,
   * made for the symbols the selectors give them.
   */
  method ChooseTables(len: seq<Lengths>, mtfv: seq<int>, mtfFreq: seq<int>, alphaSize: nat)
    returns (nGroups: nat, selector: seq<int>, ghost rounds: seq<seq<seq<Byte>>>, ghost sels: seq<seq<int>>)
    requires Six(len) && 2 <= alphaSize <= MAX_ALPHA && |mtfFreq| == MAX_ALPHA
    requires InAlphabet(mtfv, alphaSize) && 0 < |mtfv| <= MAX_SYMBOLS
    modifies len
    ensures nGroups == Groups(|mtfv|) && AllComplete(len, nGroups, alphaSize)
    ensures forall g :: 0 <= g < |selector| ==> 0 <= selector[g] < nGroups
    ensures GROUP_SIZE * (|selector| - 1) < |mtfv| <= GROUP_SIZE * |selector|
    ensures |sels| == ITERATIONS && Rounds(rounds, sels, mtfv, nGroups, alphaSize) && selector == sels[ITERATIONS - 1]
    ensures Initial(rounds[0], mtfFreq, |mtfv|, nGroups, alphaSize) && rounds[ITERATIONS] == Snapshot(len, alphaSize)
  {
    hide CompleteLengths, Tallies, Cheapest, Prefers, Counted, Tally, Parted, BestSelectors, Suits, Improves, Rounds;
    nGroups := Groups(|mtfv|);
    ghost var bounds := InitialTables(len, mtfFreq, |mtfv|, nGroups, alphaSize);
    rounds, sels := [Snapshot(len, alphaSize)], [];
    NoRounds(rounds, mtfv, nGroups, alphaSize);
    var rfreq := NewCounts();
    selector := [];
    for iter := 0 to ITERATIONS
      invariant |sels| == iter && |rounds| == iter + 1 && Rounds(rounds, sels, mtfv, nGroups, alphaSize)
      invariant Initial(rounds[0], mtfFreq, |mtfv|, nGroups, alphaSize) && rounds[iter] == Snapshot(len, alphaSize)
      invariant iter > 0 ==> selector == sels[iter - 1]
      invariant iter > 0 ==> AllComplete(len, nGroups, alphaSize)
      invariant iter > 0 ==> forall g :: 0 <= g < |selector| ==> 0 <= selector[g] < nGroups
      invariant iter > 0 ==> GROUP_SIZE * (|selector| - 1) < |mtfv| <= GROUP_SIZE * |selector|
    {
      ClearCounts(rfreq, nGroups, alphaSize);
      var tables := Read(len, alphaSize);
      selector := SelectTables(tables, rfreq, mtfv, nGroups, alphaSize);
      SelectorsName(tables, mtfv, selector, nGroups);
      RemakeTables(len, rfreq, nGroups, alphaSize, |mtfv|);
      Improved(len, rfreq, tables, mtfv, selector, nGroups, alphaSize);
      RoundsMore(rounds, sels, Snapshot(len, alphaSize), selector, mtfv, nGroups, alphaSize);
      rounds, sels := rounds + [Snapshot(len, alphaSize)], sels + [selector];
    }
  }

  lemma NoRounds(rounds: seq<seq<seq<Byte>>>, v: seq<int>, nGroups: nat, alphaSize: nat)
    requires |rounds| == 1
    ensures Rounds(rounds, [], v, nGroups, alphaSize)
  {
  }

  lemma SelectorsName(tables: seq<seq<Byte>>, v: seq<int>, sel: seq<int>, nGroups: nat)
    requires BestSelectors(tables, v, sel, nGroups)
    ensures forall g :: 0 <= g < |sel| ==> 0 <= sel[g] < nGroups
  {
  }

  lemma Improved(len: seq<Lengths>, rfreq: seq<array<int>>, prev: seq<seq<Byte>>, v: seq<int>, sel: seq<int>, nGroups: nat, alphaSize: nat)
    requires Six(len) && SixCounts(rfreq) && nGroups <= MAX_GROUPS && alphaSize <= MAX_ALPHA
    requires BestSelectors(prev, v, sel, nGroups) && Counted(rfreq, v, sel, nGroups, alphaSize)
    requires forall t :: 0 <= t < nGroups ==> Suits(len[t][..alphaSize], rfreq[t][..alphaSize])
    ensures Improves(prev, Snapshot(len, alphaSize), v, sel, nGroups, alphaSize)
  {
    hide BestSelectors, Suits, Tally;
    forall t | 0 <= t < nGroups
      ensures Suits(Snapshot(len, alphaSize)[t], TallyOf(v, sel, t, alphaSize))
    {
      assert rfreq[t][..alphaSize] == TallyOf(v, sel, t, alphaSize);
    }
  }

  method NewCounts() returns (rfreq: seq<array<int>>)
    ensures SixCounts(rfreq) && fresh(rfreq)
  {
    rfreq := [];
    for t := 0 to MAX_GROUPS
      invariant |rfreq| == t && fresh(rfreq) && Distinct(rfreq) && forall u :: 0 <= u < t ==> rfreq[u].Length == MAX_ALPHA
    {
      var f := new int[MAX_ALPHA];
      rfreq := rfreq + [f];
    }
  }

  method Read(len: seq<Lengths>, alphaSize: nat) returns (tables: seq<seq<Byte>>)
    requires forall t :: 0 <= t < |len| ==> alphaSize <= len[t].Length
    ensures tables == Snapshot(len, alphaSize)
  {
    tables := [];
    for t := 0 to |len|
      invariant |tables| == t && forall u :: 0 <= u < t ==> tables[u] == len[u][..alphaSize]
    {
      tables := tables + [len[t][..alphaSize]];
    }
  }
}
