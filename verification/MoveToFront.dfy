/** Move-to-front lists: the plain list, the encoder's rotation loop and the decoder's sixteen sliding buckets. */
module MoveToFront {
  import opened Words

  function MovedToFront<T>(list: seq<T>, k: nat): (r: seq<T>)
    requires k < |list|
    ensures |r| == |list| && r[0] == list[k]
    ensures forall i :: 0 < i <= k ==> r[i] == list[i - 1]
    ensures forall i :: k < i < |list| ==> r[i] == list[i]
  {
    [list[k]] + list[..k] + list[k + 1..]
  }

  function Iota(n: nat): (r: seq<int>)
    ensures |r| == n && forall i :: 0 <= i < n ==> r[i] == i
  {
    seq(n, i => i)
  }

  /**
   * The encoder's loop (libc/compress.c:193-205 and 466-476): carry entries up one place until x is
   * found, then put x in front.
   */
  method RotateToFront(list: array<int>, x: int, ghost n: nat) returns (j: nat)
    requires n <= list.Length && x in list[..n]
    modifies list
    ensures j < n && old(list[j]) == x && x !in old(list[..j])
    ensures list[..] == MovedToFront(old(list[..]), j)
  {
    hide MovedToFront;
    ghost var was := list[..];
    j := 0;
    var tmp := list[0];
    while x != tmp
      invariant j < n && tmp == was[j] && x !in was[..j]
      invariant forall i :: 0 < i <= j ==> list[i] == was[i - 1]
      invariant forall i :: j < i < list.Length ==> list[i] == was[i]
      decreases n - j
    {
      FoundLater(was, n, j, x);
      j := j + 1;
      var tmp2 := tmp;
      tmp := list[j];
      list[j] := tmp2;
    }
    list[0] := tmp;
    MovedIs(was, list[..], j);
  }

  lemma FoundLater(s: seq<int>, n: nat, j: nat, x: int)
    requires j < n <= |s| && x in s[..n] && x !in s[..j] && s[j] != x
    ensures j + 1 < n && x !in s[..j + 1]
  {
    assert s[..j + 1] == s[..j] + [s[j]];
    assert s[..n] == s[..j + 1] + s[j + 1..n];
  }

  lemma MovedIs(was: seq<int>, now: seq<int>, k: nat)
    requires k < |was| == |now| && now[0] == was[k]
    requires forall i :: 0 < i <= k ==> now[i] == was[i - 1]
    requires forall i :: k < i < |was| ==> now[i] == was[i]
    ensures now == MovedToFront(was, k)
  {
    var r := MovedToFront(was, k);
    forall i | 0 <= i < |was| ensures now[i] == r[i] {}
  }

  /** Cells pp .. pp+n-1 copied one place up. */
  ghost function ShiftedUp(a: seq<Byte>, pp: nat, n: nat): (r: seq<Byte>)
    requires pp + n < |a|
    ensures |r| == |a|
    ensures forall c :: 0 <= c < |a| ==> r[c] == if pp < c <= pp + n then a[c - 1] else a[c]
  {
    a[..pp + 1] + a[pp..pp + n] + a[pp + n + 1..]
  }

  lemma ShiftTop(a: seq<Byte>, pp: nat, n: nat)
    requires 0 < n && pp + n < |a|
    ensures ShiftedUp(a[pp + n := a[pp + n - 1]], pp, n - 1) == ShiftedUp(a, pp, n)
  {
  }

  /** Copying n cells one place up is what is left to do. */
  ghost predicate ShiftsTo(a: seq<Byte>, pp: nat, n: nat, target: seq<Byte>) {
    pp + n < |a| && ShiftedUp(a, pp, n) == target
  }

  lemma Shifting(a: seq<Byte>, pp: nat, n: nat) returns (target: seq<Byte>)
    requires pp + n < |a|
    ensures target == ShiftedUp(a, pp, n) && ShiftsTo(a, pp, n, target)
  {
    target := ShiftedUp(a, pp, n);
  }

  lemma ShiftedAll(a: seq<Byte>, pp: nat, target: seq<Byte>)
    requires ShiftsTo(a, pp, 0, target)
    ensures a == target
  {
  }

  const BUCKETS := 16
  const WIDTH := 16
  const CELLS := 4096

  ghost predicate GapSpaced(base: seq<int>, l: int) {
    && |base| == BUCKETS && 0 <= l < BUCKETS && base[0] > 0
    && (forall i :: 0 <= i < BUCKETS ==> 0 <= base[i] <= CELLS - 256 + WIDTH * i + (if i == l then 1 else 0))
    && (forall i, j :: 0 <= i < j < BUCKETS ==> base[i] + (if i == l then WIDTH - 1 else WIDTH) <= base[j])
  }

  /** Where entry k of the list lies while bucket l has lost its first entry and starts one cell later. */
  ghost function GapCell(base: seq<int>, l: int, k: int): int
    requires |base| == BUCKETS && 0 <= k < 256
  {
    base[k / WIDTH] + k % WIDTH - (if k / WIDTH == l then 1 else 0)
  }

  /** The cells hold `list`, but for the missing first entry of bucket l. */
  ghost predicate Gap(a: seq<Byte>, base: seq<int>, list: seq<Byte>, l: int) {
    && |a| == CELLS && |list| == 256 && GapSpaced(base, l)
    && forall k :: 0 <= k < 256 && k != WIDTH * l ==>
         0 <= GapCell(base, l, k) < CELLS && a[GapCell(base, l, k)] == list[k]
  }

  lemma GapSpacedStep(base: seq<int>, l: int)
    requires GapSpaced(base, l) && 0 < l
    ensures 0 <= base[l] - 1 < CELLS && 0 <= base[l - 1] + WIDTH - 1 < CELLS
    ensures GapSpaced(base[l := base[l] - 1], l - 1)
  {
    assert base[l - 1] + WIDTH <= base[l];
  }

  lemma GapStepAt(a: seq<Byte>, base: seq<int>, list: seq<Byte>, l: int, k: int)
    requires Gap(a, base, list, l) && 0 < l && 0 <= k < 256 && k != WIDTH * (l - 1)
    ensures var at, from := base[l] - 1, base[l - 1] + WIDTH - 1;
            var c := GapCell(base[l := at], l - 1, k);
            && 0 <= at < CELLS && 0 <= from < CELLS && 0 <= c < CELLS
            && a[at := a[from]][c] == ShiftedUp(list, WIDTH * (l - 1), WIDTH)[k]
  {
    GapSpacedStep(base, l);
    var c := GapCell(base[l := base[l] - 1], l - 1, k);
    assert GapCell(base, l, WIDTH * l - 1) == base[l - 1] + WIDTH - 1;
    if k / WIDTH == l - 1 {
      assert c == GapCell(base, l, k - 1);
    } else if k != WIDTH * l {
      assert c == GapCell(base, l, k);
    }
  }

  /** Filling bucket l's front with the last entry of bucket l-1 moves the gap down one bucket. */
  lemma GapStep(a: seq<Byte>, base: seq<int>, list: seq<Byte>, l: int)
    requires Gap(a, base, list, l) && 0 < l
    ensures var at, from := base[l] - 1, base[l - 1] + WIDTH - 1;
            && 0 <= at < CELLS && 0 <= from < CELLS
            && Gap(a[at := a[from]], base[l := at], ShiftedUp(list, WIDTH * (l - 1), WIDTH), l - 1)
  {
    GapSpacedStep(base, l);
    var base', list' := base[l := base[l] - 1], ShiftedUp(list, WIDTH * (l - 1), WIDTH);
    var a' := a[base[l] - 1 := a[base[l - 1] + WIDTH - 1]];
    forall k | 0 <= k < 256 && k != WIDTH * (l - 1)
      ensures 0 <= GapCell(base', l - 1, k) < CELLS && a'[GapCell(base', l - 1, k)] == list'[k]
    {
      GapStepAt(a, base, list, l, k);
    }
  }

  lemma ShiftsCompose(list: seq<Byte>, l: nat, nn: nat)
    requires 0 < l && WIDTH * l <= nn < |list|
    ensures ShiftedUp(ShiftedUp(list, WIDTH * l, nn - WIDTH * l), WIDTH * (l - 1), WIDTH)
            == ShiftedUp(list, WIDTH * (l - 1), nn - WIDTH * (l - 1))
  {
  }

  ghost predicate SpacedBases(base: seq<int>) {
    && |base| == BUCKETS
    && (forall i :: 0 <= i < BUCKETS ==> 0 <= base[i] <= CELLS - 256 + WIDTH * i)
    && (forall i, j :: 0 <= i < j < BUCKETS ==> base[i] + WIDTH <= base[j])
  }

  /** The list that the cells stand for. */
  ghost predicate Holds(a: seq<Byte>, base: seq<int>, list: seq<Byte>) {
    && |a| == CELLS && |list| == 256 && SpacedBases(base)
    && forall k :: 0 <= k < 256 ==> a[base[k / WIDTH] + k % WIDTH] == list[k]
  }

  lemma GapOpensAt(a: seq<Byte>, base: seq<int>, list: seq<Byte>, l: nat, off: nat, k: nat)
    requires Holds(a, base, list) && l < BUCKETS && off < WIDTH && k < 256 && k != WIDTH * l
    ensures var c := GapCell(base[l := base[l] + 1], l, k);
            0 <= c < CELLS && base[l] + off < CELLS && ShiftedUp(a, base[l], off)[c] == ShiftedUp(list, WIDTH * l, off)[k]
  {
    var i, o := k / WIDTH, k % WIDTH;
    var c := base[i] + o;
    assert GapCell(base[l := base[l] + 1], l, k) == c && a[c] == list[k];
    if i == l {
      assert (k - 1) / WIDTH == l && (k - 1) % WIDTH == o - 1;
      assert a[base[(k - 1) / WIDTH] + (k - 1) % WIDTH] == list[k - 1];
    } else if i < l {
      assert base[i] + WIDTH <= base[l];
    } else {
      assert base[l] + WIDTH <= base[i];
    }
  }

  /** Taking entry nn out of its bucket opens a gap at that bucket's front. */
  lemma GapOpens(a: seq<Byte>, base: seq<int>, list: seq<Byte>, l: nat, off: nat)
    requires Holds(a, base, list) && base[0] > 0 && l < BUCKETS && off < WIDTH
    ensures base[l] + off < CELLS && a[base[l] + off] == list[WIDTH * l + off]
    ensures Gap(ShiftedUp(a, base[l], off), base[l := base[l] + 1], ShiftedUp(list, WIDTH * l, off), l)
  {
    var nn := WIDTH * l + off;
    assert a[base[nn / WIDTH] + nn % WIDTH] == list[nn];
    var a', base', list' := ShiftedUp(a, base[l], off), base[l := base[l] + 1], ShiftedUp(list, WIDTH * l, off);
    assert GapSpaced(base', l);
    forall k | 0 <= k < 256 && k != WIDTH * l
      ensures 0 <= GapCell(base', l, k) < CELLS && a'[GapCell(base', l, k)] == list'[k]
    {
      GapOpensAt(a, base, list, l, off, k);
    }
  }

  /** Dropping the entry in front of bucket 0 closes the gap. */
  lemma GapCloses(a: seq<Byte>, base: seq<int>, list: seq<Byte>, nn: nat, uc: Byte)
    requires nn < 256 == |list| && uc == list[nn] && Gap(a, base, ShiftedUp(list, 0, nn), 0)
    ensures |a| == CELLS && |base| == BUCKETS && 0 <= base[0] - 1 < CELLS
    ensures SpacedBases(base[0 := base[0] - 1])
    ensures Holds(a[base[0] - 1 := uc], base[0 := base[0] - 1], MovedToFront(list, nn))
  {
    var a', base', list' := a[base[0] - 1 := uc], base[0 := base[0] - 1], MovedToFront(list, nn);
    forall k | 0 <= k < 256
      ensures a'[base'[k / WIDTH] + k % WIDTH] == list'[k]
    {
      if k != 0 { assert GapCell(base, 0, k) == base'[k / WIDTH] + k % WIDTH; }
    }
  }

  lemma SpacedIn(base: seq<int>)
    requires SpacedBases(base)
    ensures |base| == BUCKETS && forall i :: 0 <= i < BUCKETS ==> 0 <= base[i] <= CELLS - 256 + WIDTH * i
  {
  }

  lemma HoldsSize(a: seq<Byte>, base: seq<int>, list: seq<Byte>)
    requires Holds(a, base, list)
    ensures |a| == CELLS && |list| == 256
  {
  }

  /** The decoder's table: bucket i occupies cells mtfbase[i] .. mtfbase[i]+15 of mtfa. */
  class MtfTable {
    const mtfa: array<Byte>
    const mtfbase: array<int>

    ghost predicate Spaced()
      reads this, mtfbase
    {
      mtfa.Length == CELLS && SpacedBases(mtfbase[..])
    }

    /** Between operations the lowest bucket can still slide down. */
    ghost predicate Valid()
      reads this, mtfbase
    {
      Spaced() && mtfbase[0] > 0
    }

    /** The 256-entry list that the buckets stand for. */
    ghost function List(): (s: seq<Byte>)
      reads this, mtfa, mtfbase
      requires Spaced()
      ensures Holds(mtfa[..], mtfbase[..], s)
    {
      var a, base := mtfa[..], mtfbase[..];
      seq(256, k requires 0 <= k < 256 => a[base[k / WIDTH] + k % WIDTH])
    }

    lemma ListIs(list: seq<Byte>)
      requires Spaced() && Holds(mtfa[..], mtfbase[..], list)
      ensures List() == list
    {
      forall k | 0 <= k < 256
        ensures List()[k] == list[k]
      {
        assert mtfa[..][mtfbase[..][k / WIDTH] + k % WIDTH] == list[k];
      }
    }

    constructor ()
      ensures Valid() && List() == Iota(256) && fresh(mtfa) && fresh(mtfbase)
    {
      mtfa := new Byte[CELLS](_ => 0);
      mtfbase := new int[BUCKETS](_ => 0);
      new;
      var kk := CELLS - 1;
      var ii := BUCKETS - 1;
      while ii >= 0
        invariant -1 <= ii < BUCKETS && kk == CELLS - 256 + WIDTH * ii + 15
        invariant forall i :: ii < i < BUCKETS ==> mtfbase[i] == CELLS - 256 + WIDTH * i
        invariant forall c :: kk < c < CELLS ==> mtfa[c] == c - (CELLS - 256)
      {
        var jj := WIDTH - 1;
        while jj >= 0
          invariant -1 <= jj < WIDTH && kk == CELLS - 256 + WIDTH * ii + jj
          invariant forall i :: ii < i < BUCKETS ==> mtfbase[i] == CELLS - 256 + WIDTH * i
          invariant forall c :: kk < c < CELLS ==> mtfa[c] == c - (CELLS - 256)
        {
          mtfa[kk] := ii * WIDTH + jj;
          kk := kk - 1;
          jj := jj - 1;
        }
        mtfbase[ii] := kk + 1;
        ii := ii - 1;
      }
    }

    /** The move loop of one bucket, four cells at a time as long as possible when `unrolled`. */
    method ShiftUp(pp: nat, n: nat, unrolled: bool)
      requires pp + n < mtfa.Length
      modifies mtfa
      ensures mtfa[..] == ShiftedUp(old(mtfa[..]), pp, n)
    {
      hide ShiftsTo;
      var nn := n;
      ghost var target := Shifting(mtfa[..], pp, n);
      while unrolled && nn > 3
        invariant 0 <= nn <= n && ShiftsTo(mtfa[..], pp, nn, target)
      {
        var z := pp + nn;
        MoveCell(z, pp, nn, target);
        MoveCell(z - 1, pp, nn - 1, target);
        MoveCell(z - 2, pp, nn - 2, target);
        MoveCell(z - 3, pp, nn - 3, target);
        nn := nn - 4;
      }
      while nn > 0
        invariant 0 <= nn <= n && ShiftsTo(mtfa[..], pp, nn, target)
      {
        MoveCell(pp + nn, pp, nn, target);
        nn := nn - 1;
      }
      ShiftedAll(mtfa[..], pp, target);
    }

    method MoveCell(z: nat, ghost pp: nat, ghost nn: nat, ghost target: seq<Byte>)
      requires 0 < nn && z == pp + nn < mtfa.Length && ShiftsTo(mtfa[..], pp, nn, target)
      modifies mtfa
      ensures ShiftsTo(mtfa[..], pp, nn - 1, target)
    {
      ShiftTop(mtfa[..], pp, nn);
      ghost var was := mtfa[..];
      mtfa[z] := mtfa[z - 1];
      assert mtfa[..] == was[z := was[z - 1]];
    }

    /** The common case: entry nn of the first bucket moves to its front. */
    method MoveNear(nn: nat) returns (uc: Byte)
      requires Valid() && nn < WIDTH
      modifies mtfa
      ensures uc == old(List())[nn] && List() == MovedToFront(old(List()), nn)
    {
      ghost var was, cells, base := List(), mtfa[..], mtfbase[..];
      var pp := mtfbase[0];
      NearMoved(cells, base, was, nn);
      uc := mtfa[pp + nn];
      ShiftUp(pp, nn, true);
      ghost var shifted := mtfa[..];
      mtfa[pp] := uc;
      assert mtfa[..] == shifted[pp := uc];
      ListIs(MovedToFront(was, nn));
    }

    /** Slide every bucket back to the top of the array. */
    method Recopy()
      requires Spaced()
      modifies mtfa, mtfbase
      ensures Valid() && List() == old(List())
    {
      hide Recopying, SpacedBases, Holds;
      ghost var list, base := List(), mtfbase[..];
      RecopyStart(mtfa[..], base, list);
      var kk := CELLS - 1;
      var ii := BUCKETS - 1;
      while ii >= 0
        invariant -1 <= ii < BUCKETS && kk == CELLS - 256 + WIDTH * ii + 15
        invariant Recopying(mtfa[..], base, list, WIDTH * ii + 15)
        invariant forall i :: 0 <= i < BUCKETS ==> mtfbase[i] == if i <= ii then base[i] else CELLS - 256 + WIDTH * i
      {
        var jj := WIDTH - 1;
        while jj >= 0
          modifies mtfa
          invariant -1 <= jj < WIDTH && kk == CELLS - 256 + WIDTH * ii + jj
          invariant Recopying(mtfa[..], base, list, WIDTH * ii + jj)
        {
          ghost var a, idx := mtfa[..], WIDTH * ii + jj;
          assert idx / WIDTH == ii && idx % WIDTH == jj;
          RecopyStep(a, base, list, idx);
          mtfa[kk] := mtfa[mtfbase[ii] + jj];
          assert mtfa[..] == a[CELLS - 256 + idx := a[base[ii] + jj]];
          kk := kk - 1;
          jj := jj - 1;
        }
        mtfbase[ii] := kk + 1;
        ii := ii - 1;
      }
      RecopyDone(mtfa[..], base, list, mtfbase[..]);
      ListIs(list);
    }

    /** Each bucket from lno down takes the last entry of the one below, moving the gap to bucket 0. */
    method SlideBuckets(lno0: nat, ghost was: seq<Byte>, ghost nn: nat)
      requires mtfa.Length == CELLS && mtfbase.Length == BUCKETS && |was| == 256 && nn < 256 && lno0 == nn / WIDTH
      requires Gap(mtfa[..], mtfbase[..], ShiftedUp(was, WIDTH * lno0, nn - WIDTH * lno0), lno0)
      modifies mtfa, mtfbase
      ensures Gap(mtfa[..], mtfbase[..], ShiftedUp(was, 0, nn), 0)
    {
      hide Gap;
      var lno := lno0;
      while lno > 0
        invariant 0 <= lno <= lno0
        invariant Gap(mtfa[..], mtfbase[..], ShiftedUp(was, WIDTH * lno, nn - WIDTH * lno), lno)
      {
        ghost var a, b := mtfa[..], mtfbase[..];
        GapStep(a, b, ShiftedUp(was, WIDTH * lno, nn - WIDTH * lno), lno);
        ShiftsCompose(was, lno, nn);
        mtfbase[lno] := mtfbase[lno] - 1;
        mtfa[mtfbase[lno]] := mtfa[mtfbase[lno - 1] + WIDTH - 1];
        assert mtfbase[..] == b[lno := b[lno] - 1] && mtfa[..] == a[b[lno] - 1 := a[b[lno - 1] + WIDTH - 1]];
        lno := lno - 1;
      }
    }

    /** The entry leaves its bucket, and a gap opens at the front of that bucket. */
    method OpenGap(lno: nat, off: nat, ghost was: seq<Byte>) returns (uc: Byte)
      requires Valid() && lno < BUCKETS && off < WIDTH && was == List()
      modifies mtfa, mtfbase
      ensures |was| == 256 && uc == was[WIDTH * lno + off]
      ensures Gap(mtfa[..], mtfbase[..], ShiftedUp(was, WIDTH * lno, off), lno)
    {
      hide Gap, Holds, SpacedBases;
      SpacedIn(mtfbase[..]);
      HoldsSize(mtfa[..], mtfbase[..], was);
      GapOpens(mtfa[..], mtfbase[..], was, lno, off);
      uc := mtfa[mtfbase[lno] + off];
      ghost var base := mtfbase[..];
      ShiftUp(mtfbase[lno], off, false);
      mtfbase[lno] := mtfbase[lno] + 1;
      assert mtfbase[..] == base[lno := base[lno] + 1];
    }

    /** The entry goes into the gap in front of the first bucket. */
    method CloseGap(uc: Byte, ghost was: seq<Byte>, ghost nn: nat)
      requires mtfa.Length == CELLS && mtfbase.Length == BUCKETS && |was| == 256 && nn < 256 && uc == was[nn]
      requires Gap(mtfa[..], mtfbase[..], ShiftedUp(was, 0, nn), 0)
      modifies mtfa, mtfbase
      ensures Valid() && List() == MovedToFront(was, nn)
    {
      hide Gap, Holds, SpacedBases, MovedToFront;
      ghost var a, b := mtfa[..], mtfbase[..];
      GapCloses(a, b, was, nn, uc);
      mtfbase[0] := mtfbase[0] - 1;
      mtfa[mtfbase[0]] := uc;
      assert mtfbase[..] == b[0 := b[0] - 1] && mtfa[..] == a[b[0] - 1 := uc];
      ListIs(MovedToFront(was, nn));
      if mtfbase[0] == 0 { Recopy(); }
    }

    /** The general case: the entry leaves bucket lno, and one entry moves up across each boundary below. */
    method MoveFar(nn: nat) returns (uc: Byte)
      requires Valid() && WIDTH <= nn < 256
      modifies mtfa, mtfbase
      ensures Valid() && uc == old(List())[nn] && List() == MovedToFront(old(List()), nn)
    {
      hide Gap, Holds, SpacedBases, MovedToFront;
      ghost var was := List();
      var lno, off := nn / WIDTH, nn % WIDTH;
      SpacedIn(mtfbase[..]);
      uc := OpenGap(lno, off, was);
      SlideBuckets(lno, was, nn);
      CloseGap(uc, was, nn);
    }

    /** uc = MTF(nn): the table refines the plain list on every symbol. */
    method Decode(nn: nat) returns (uc: Byte)
      requires Valid() && nn < 256
      modifies mtfa, mtfbase
      ensures Valid() && uc == old(List())[nn] && List() == MovedToFront(old(List()), nn)
    {
      if nn < WIDTH { uc := MoveNear(nn); } else { uc := MoveFar(nn); }
    }

    /** The front entry, read for a run. */
    method Front() returns (uc: Byte)
      requires Valid()
      ensures uc == List()[0]
    {
      uc := mtfa[mtfbase[0]];
      assert mtfa[..][mtfbase[..][0 / WIDTH] + 0 % WIDTH] == List()[0];
    }
  }

  /** The recopy writes cell CELLS-256+idx from a cell no higher than it, so unread entries survive. */
  ghost predicate Recopying(a: seq<Byte>, base: seq<int>, list: seq<Byte>, idx: int) {
    && |a| == CELLS && |list| == 256 && SpacedBases(base) && -1 <= idx < 256
    && (forall k :: 0 <= k <= idx ==> a[base[k / WIDTH] + k % WIDTH] == list[k])
    && (forall k :: idx < k < 256 ==> a[CELLS - 256 + k] == list[k])
  }

  lemma RecopyStart(a: seq<Byte>, base: seq<int>, list: seq<Byte>)
    requires Holds(a, base, list)
    ensures Recopying(a, base, list, 255) && |base| == BUCKETS
  {
  }

  lemma RecopyDone(a: seq<Byte>, base: seq<int>, list: seq<Byte>, base': seq<int>)
    requires Recopying(a, base, list, -1) && |base'| == BUCKETS && forall i :: 0 <= i < BUCKETS ==> base'[i] == CELLS - 256 + WIDTH * i
    ensures SpacedBases(base') && Holds(a, base', list)
  {
  }

  lemma RecopyStep(a: seq<Byte>, base: seq<int>, list: seq<Byte>, idx: nat)
    requires Recopying(a, base, list, idx)
    ensures idx < 256 && |a| == CELLS && |base| == BUCKETS
    ensures var from := base[idx / WIDTH] + idx % WIDTH;
            0 <= from < CELLS && Recopying(a[CELLS - 256 + idx := a[from]], base, list, idx - 1)
  {
    forall k | 0 <= k < idx
      ensures base[k / WIDTH] + k % WIDTH < CELLS - 256 + idx
    {
    }
  }

  lemma NearMoved(a: seq<Byte>, base: seq<int>, list: seq<Byte>, nn: nat)
    requires Holds(a, base, list) && nn < WIDTH
    ensures a[base[0] + nn] == list[nn]
    ensures Holds(ShiftedUp(a, base[0], nn)[base[0] := list[nn]], base, MovedToFront(list, nn))
  {
    hide ShiftedUp, MovedToFront;
    var a', list' := ShiftedUp(a, base[0], nn)[base[0] := list[nn]], MovedToFront(list, nn);
    NearEntry(a, base, list, nn);
    forall k | 0 <= k < 256
      ensures a'[base[k / WIDTH] + k % WIDTH] == list'[k]
    {
      NearMovedAt(a, base, list, nn, k);
    }
  }

  lemma NearEntry(a: seq<Byte>, base: seq<int>, list: seq<Byte>, nn: nat)
    requires Holds(a, base, list) && nn < WIDTH
    ensures a[base[0] + nn] == list[nn]
  {
    assert nn / WIDTH == 0 && nn % WIDTH == nn;
    assert a[base[nn / WIDTH] + nn % WIDTH] == list[nn];
  }

  lemma NearMovedAt(a: seq<Byte>, base: seq<int>, list: seq<Byte>, nn: nat, k: nat)
    requires Holds(a, base, list) && nn < WIDTH && k < 256
    ensures ShiftedUp(a, base[0], nn)[base[0] := list[nn]][base[k / WIDTH] + k % WIDTH] == MovedToFront(list, nn)[k]
  {
    assert a[base[k / WIDTH] + k % WIDTH] == list[k];
    if k >= WIDTH { assert base[0] + WIDTH <= base[k / WIDTH]; }
    if 0 < k <= nn { assert a[base[(k - 1) / WIDTH] + (k - 1) % WIDTH] == list[k - 1]; }
  }
}
