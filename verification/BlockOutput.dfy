/** Writing out a decoded block: run expansion in resumable slices (libc/bzlib.c:536-804). */
module BlockOutput {
  import opened Words
  import opened Counting
  import opened InverseBwt
  import opened SmallVector
  import opened RunLength
  import opened Crc
  import opened Randomise

  // ---- fetching the block ----

  /** The j-th byte fetched by walking the vector p from orig. */
  ghost function Fetched(l: seq<Byte>, p: seq<int>, orig: nat, j: nat): Byte
    requires InvertsSlots(l, p) && orig < |l|
  {
    l[Walk(p, orig, j)]
  }

  /** The whole block. */
  ghost function Text(l: seq<Byte>, p: seq<int>, orig: nat): (b: seq<Byte>)
    requires InvertsSlots(l, p) && orig < |l|
    ensures |b| == |l| && forall m :: 0 <= m < |l| ==> b[m] == Fetched(l, p, orig, m + 1)
  {
    seq(|l|, m requires 0 <= m < |l| => Fetched(l, p, orig, m + 1))
  }

  /** The FAST or the SMALL memory of a decoded block, and the position in it. */
  class Source {
    const fast: bool
    const tt: array<int>
    const ll: LL
    const cftab: array<int>
    const randomised: bool
    const nums: Numbers
    var tPos: int
    var rNToGo: nat
    var rTPos: nat
    ghost var fetched: nat
    ghost var stretch: nat
    ghost const l: seq<Byte>
    ghost const p: seq<int>
    ghost const orig: nat

    ghost predicate Good() {
      InvertsSlots(l, p) && orig < |l|
    }

    /** The j-th byte of the block, without the mask. */
    ghost function At(j: nat): Byte
      requires Good()
    {
      if randomised && Flipped(nums, j) then Flip(Fetched(l, p, orig, j)) else Fetched(l, p, orig, j)
    }

    ghost function Block(): (b: seq<Byte>)
      requires Good()
      ensures |b| == |l| && forall m :: 0 <= m < |l| ==> b[m] == At(m + 1)
    {
      if randomised then Masked(nums, Text(l, p, orig)) else Text(l, p, orig)
    }

    ghost predicate Valid()
      reads this, tt, ll, ll.ll16, ll.ll4, cftab
    {
      Good() && (randomised ==> Tracks(nums, rNToGo, rTPos, fetched, stretch)) && Standing(fetched)
    }

    /** The position after j fetches. */
    ghost predicate Standing(j: nat)
      requires Good()
      reads this`tPos, tt, ll, ll.ll16, ll.ll4, cftab
    {
      && (fast ==> Packed(l, p, tt[..]) && tPos == Walk(p, orig, j + 1))
      && (!fast ==>
            && ll.Valid() && |l| <= ll.used && cftab.Length == 257 && tPos == Walk(p, orig, j)
            && (forall k: nat :: ll.Cells()[Walk(p, orig, k)] == p[Walk(p, orig, k)])
            && (forall c :: 0 <= c <= 256 ==> cftab[c] == Start(l, c)))
    }

    /** The FAST memory: the first position is read from the cell at origPtr. */
    constructor Fast(tt: array<int>, origPtr: nat, randomised: bool, nums: Numbers, ghost l: seq<Byte>, ghost p: seq<int>)
      requires InvertsSlots(l, p) && Packed(l, p, tt[..]) && origPtr < |l|
      ensures Valid() && fetched == 0 && fast && this.tt == tt && this.l == l && this.p == p && orig == origPtr
      ensures this.randomised == randomised && this.nums == nums
    {
      hide Packed, InvertsSlots, Walk;
      fast, this.tt, this.l, this.p, orig, fetched := true, tt, l, p, origPtr, 0;
      this.randomised, this.nums, rNToGo, rTPos, stretch := randomised, nums, 0, 0, 0;
      cftab := new int[0];
      ll := new LL(0);
      FirstStep(l, p, tt[..], origPtr);
      tPos := tt[origPtr] / 256;
    }

    /** The SMALL memory. */
    constructor Small(ll: LL, cftab: array<int>, origPtr: nat, randomised: bool, nums: Numbers, ghost l: seq<Byte>, ghost p: seq<int>)
      requires InvertsSlots(l, p) && origPtr < |l| && ll.Valid() && |l| <= ll.used && cftab.Length == 257
      requires forall k: nat :: ll.Cells()[Walk(p, origPtr, k)] == p[Walk(p, origPtr, k)]
      requires forall c :: 0 <= c <= 256 ==> cftab[c] == Start(l, c)
      ensures Valid() && fetched == 0 && !fast && this.ll == ll && this.cftab == cftab
      ensures this.l == l && this.p == p && orig == origPtr && this.randomised == randomised && this.nums == nums
    {
      fast, this.ll, this.cftab, this.l, this.p, orig, fetched := false, ll, cftab, l, p, origPtr, 0;
      this.randomised, this.nums, rNToGo, rTPos, stretch := randomised, nums, 0, 0, 0;
      tt := new int[0];
      tPos := origPtr;
    }

    /** BZ_GET_FAST or BZ_GET_SMALL */
    method FetchPlain(ghost j: nat) returns (c: Byte)
      requires Good() && Standing(j)
      modifies this`tPos
      ensures Standing(j + 1) && c == Fetched(l, p, orig, j + 1)
    {
      hide Packed, InvertsSlots, LL.Valid, LL.Cells, Start;
      if fast {
        WalkIn(l, p, orig, j + 1);
        c, tPos := FetchFast(tt, tPos, l, p);
      } else {
        c, tPos := FetchSmall(ll, cftab, tPos, l, p, orig, j);
      }
    }

    /** The next byte: fetched and, in a randomised block, with the mask taken off. */
    method Fetch() returns (c: Byte)
      requires Valid()
      modifies this
      ensures Valid() && fetched == old(fetched) + 1 && c == At(fetched)
    {
      hide Good, Standing, Tracks, Flipped, Fetched;
      c := FetchPlain(fetched);
      if randomised {
        rNToGo, rTPos, stretch := NextMask(nums, rNToGo, rTPos, fetched, stretch);
        if rNToGo == 1 { c := Flip(c); }
      }
      fetched := fetched + 1;
    }
  }

  lemma FirstStep(l: seq<Byte>, p: seq<int>, tt: seq<int>, orig: nat)
    requires InvertsSlots(l, p) && Packed(l, p, tt) && orig < |l|
    ensures orig < |tt| && tt[orig] / 256 == Walk(p, orig, 1)
  {
    PackedAt(l, p, tt, orig);
    assert Walk(p, orig, 0) == orig;
  }

  lemma WalkIn(l: seq<Byte>, p: seq<int>, orig: nat, m: nat)
    requires InvertsSlots(l, p) && orig < |l|
    ensures 0 <= Walk(p, orig, m) < |l| && Walk(p, orig, m + 1) == p[Walk(p, orig, m)]
  {
  }

  // ---- what is left to write ----

  /** All that a block writes; if a count is missing at its end, the byte fetched there is taken for it. */
  ghost function Written(b: seq<Byte>, extra: Byte): seq<Byte> {
    Expand(b) + (if Whole(b) then [] else Copies(After(FRESH, b).c, extra))
  }

  lemma WrittenRun(b: seq<Byte>, extra: Byte)
    requires b != []
    ensures Lead(b) < 4 ==> Written(b, extra) == Copies(b[0], Lead(b)) + Written(b[Lead(b)..], extra)
    ensures Lead(b) < 4 ==> (Whole(b) <==> Whole(b[Lead(b)..]))
    ensures Lead(b) == 4 && |b| > 4 ==> Written(b, extra) == Copies(b[0], 4 + b[4] as nat) + Written(b[5..], extra)
    ensures Lead(b) == 4 && |b| > 4 ==> (Whole(b) <==> Whole(b[5..]))
    ensures Lead(b) == 4 && |b| == 4 ==> Written(b, extra) == Copies(b[0], 4 + extra as nat) && !Whole(b)
    ensures Written([], extra) == [] && Whole([])
    ensures Written(b, extra) != []
  {
    assert Copies(0, 0) == [];
    if Lead(b) < 4 {
      ShortRun(b);
      RunState(b, Lead(b), b[Lead(b)..]);
    } else {
      LongRun(b);
      if |b| > 4 { RunState(b, 5, b[5..]); } else { RunState4(b); }
    }
  }

  /** Where a corrupt block ends, the state is that of its last run. */
  lemma RunState(b: seq<Byte>, k: nat, rest: seq<Byte>)
    requires b != [] && 0 < k <= |b| && rest == b[k..]
    requires (Lead(b) < 4 && k == Lead(b)) || (Lead(b) == 4 && k == 5)
    ensures rest != [] ==> After(FRESH, b) == After(FRESH, rest)
    ensures rest == [] ==> After(FRESH, b).m != 4
  {
    var head := b[..k];
    assert b == head + rest;
    Continue(FRESH, head, rest);
    if k < 4 {
      assert head == Copies(b[0], k);
      FirstCopy(FRESH, b[0], k);
    } else {
      assert head == Copies(b[0], 4) + [b[4]];
      Continue(FRESH, Copies(b[0], 4), [b[4]]);
      FirstCopy(FRESH, b[0], 4);
      assert After(Run(b[0], 4), [b[4]]) == Run(b[0], 0);
    }
    BreakForgets(After(FRESH, head), rest);
  }

  lemma RunState4(b: seq<Byte>)
    requires |b| == 4 && Lead(b) == 4
    ensures After(FRESH, b) == Run(b[0], 4)
  {
    assert b == Copies(b[0], 4);
    FirstCopy(FRESH, b[0], 4);
  }

  // ---- the output machine ----

  /** The state of a block being written out, between and during calls. */
  class Output {
    const src: Source
    const nblock: nat
    const table: seq<nat>
    var k0: Byte
    var nblockUsed: nat
    var stateOutLen: nat
    var stateOutCh: Byte
    var crc: nat
    var out: seq<Byte>
    var availOut: nat

    ghost function Block(): seq<Byte>
      requires src.Good()
    {
      src.Block()
    }

    /** The byte fetched just beyond the block. */
    ghost function Extra(): Byte
      requires src.Good()
    {
      src.At(nblock + 1)
    }

    /** Block bytes not yet turned into runs. */
    ghost function Unread(): seq<Byte>
      requires src.Good() && nblock == |src.l| && 1 <= nblockUsed
      reads this`nblockUsed
    {
      if nblockUsed <= nblock then Block()[nblockUsed - 1..] else []
    }

    /** The fetch position, and whether the data can still turn out corrupt. */
    ghost predicate Placed()
      reads this`k0, this`nblockUsed, src, src.tt, src.ll, src.ll.ll16, src.ll.ll4, src.cftab
    {
      && src.Good() && src.Valid() && src.fetched == nblockUsed && nblock == |src.l| && 1 <= nblockUsed <= nblock + 2
      && (nblockUsed <= nblock ==> k0 == src.At(nblockUsed))
      && (nblockUsed <= nblock + 1 ==> (Whole(Block()) <==> Whole(Unread())))
      && (nblockUsed == nblock + 2 ==> !Whole(Block()))
    }

    /** Everything the block has still to write. */
    ghost function Remaining(): seq<Byte>
      requires Placed()
      reads this`k0, this`nblockUsed, this`stateOutLen, this`stateOutCh, src, src.tt, src.ll, src.ll.ll16, src.ll.ll4, src.cftab
    {
      Copies(stateOutCh, stateOutLen) + Written(Unread(), Extra())
    }

    ghost predicate Valid()
      reads this`k0, this`nblockUsed, this`stateOutLen, this`stateOutCh, this`crc, this`out, src, src.tt, src.ll, src.ll.ll16, src.ll.ll4, src.cftab
    {
      && Placed() && Table(table) && crc < WORD && crc == Sum(table, INITIAL, out)
      && out + Remaining() == Written(Block(), Extra())
    }

    /** Nothing is left, and the block was sound. */
    ghost predicate Finished()
      requires Placed()
      reads this, src, src.tt, src.ll, src.ll.ll16, src.ll.ll4, src.cftab
    {
      nblockUsed == nblock + 1 && stateOutLen == 0
    }

    /** Start on a block whose first byte has just been fetched. */
    constructor (src: Source, saveNblock: nat, first: Byte, table: seq<nat>)
      requires src.Valid() && saveNblock == |src.l| && src.fetched == 1 && first == src.At(1) && Table(table)
      ensures Valid() && out == [] && availOut == 0 && this.src == src && this.table == table && nblock == |src.l|
      ensures Remaining() == Written(src.Block(), src.At(nblock + 1))
    {
      hide Written, Whole, Tracks, Packed, InvertsSlots, Start, Walk, LL.Valid, LL.Cells, Flipped;
      this.src, this.table, k0, nblockUsed := src, table, first, 1;
      nblock := saveNblock;
      stateOutLen, stateOutCh, crc, out, availOut := 0, 0, INITIAL, [], 0;
      new;
      assert Unread() == Block();
      assert Copies(0, 0) == [] && [] + Written(Block(), Extra()) == Written(Block(), Extra());
    }

    /** Write one byte of the current run. */
    method Emit()
      requires Valid() && stateOutLen > 0 && availOut > 0
      modifies this`out, this`crc, this`stateOutLen, this`availOut
      ensures Valid() && out == old(out) + [stateOutCh] && stateOutLen == old(stateOutLen) - 1 && availOut == old(availOut) - 1
      ensures old(Remaining()) == [stateOutCh] + Remaining()
    {
      hide Source.Valid, Source.Good, Written, Whole, Update, InvertsSlots, Source.Block, Source.At, Unread, Sum, Extra, Block;
      ghost var rest, was := Written(Unread(), Extra()), out;
      SumNext(table, INITIAL, out, stateOutCh);
      out := out + [stateOutCh];
      crc := Update(table, crc, stateOutCh);
      stateOutLen := stateOutLen - 1;
      availOut := availOut - 1;
      assert [stateOutCh] + Copies(stateOutCh, stateOutLen) == Copies(stateOutCh, stateOutLen + 1);
      assert [stateOutCh] + (Copies(stateOutCh, stateOutLen) + rest) == Copies(stateOutCh, stateOutLen + 1) + rest;
      assert was + ([stateOutCh] + Remaining()) == was + [stateOutCh] + Remaining();
    }

    /** Byte i of the unread part, once u bytes have been fetched. */
    lemma UnreadAt(u: nat, i: nat)
      requires src.Good() && nblock == |src.l| && 1 <= u && u + i <= nblock
      ensures Block()[u - 1..][i] == src.At(u + i)
    {
    }

    /** The unread part is t, and nothing else has changed. */
    ghost predicate Reading(t: seq<Byte>, u: nat)
      reads this`nblockUsed, this`crc, this`out, src, src.tt, src.ll, src.ll.ll16, src.ll.ll4, src.cftab
    {
      && src.Good() && src.Valid() && src.fetched == nblockUsed && nblock == |src.l| && 1 <= u <= nblock && t == Block()[u - 1..]
      && (Whole(Block()) <==> Whole(t)) && Table(table) && crc < WORD && crc == Sum(table, INITIAL, out)
      && out + Written(t, Extra()) == Written(Block(), Extra())
    }

    /** One more byte of the block. */
    method FetchNext(ghost t: seq<Byte>, ghost u: nat) returns (k1: Byte)
      requires Reading(t, u) && u <= nblockUsed
      modifies this`nblockUsed, src
      ensures Reading(t, u) && nblockUsed == old(nblockUsed) + 1 && |t| == nblock - u + 1
      ensures nblockUsed <= nblock ==> k1 == t[nblockUsed - u]
      ensures nblockUsed == nblock + 1 ==> k1 == Extra()
      ensures k1 == src.At(nblockUsed)
    {
      hide Source.Valid, InvertsSlots, Source.Block, Written, Whole, Sum, Source.At;
      k1 := src.Fetch();
      nblockUsed := nblockUsed + 1;
      if nblockUsed <= nblock { UnreadAt(u, nblockUsed - u); }
    }

    lemma StartsReading()
      requires Valid() && stateOutLen == 0 && nblockUsed <= nblock
      ensures Unread() == Block()[nblockUsed - 1..] && |Unread()| == nblock - nblockUsed + 1 && Reading(Unread(), nblockUsed)
      ensures Remaining() == Written(Unread(), Extra()) && k0 == Unread()[0]
    {
      assert Copies(stateOutCh, 0) == [] && [] + Written(Unread(), Extra()) == Written(Unread(), Extra());
    }

    /** A run of m < 4 bytes has been read. */
    lemma ShortRead(t: seq<Byte>, u: nat, m: nat)
      requires Reading(t, u) && 1 <= m <= 3 && m <= |t| && nblockUsed == u + m && stateOutLen == m && stateOutCh == t[0]
      requires (forall i :: 0 <= i < m ==> t[i] == t[0]) && (m < |t| ==> t[m] != t[0] && k0 == t[m])
      ensures Valid() && Remaining() == Written(t, Extra())
    {
      hide Source.Valid, Written, Whole, Source.Block, Source.At;
      WrittenRun(t, Extra());
      assert Lead(t) == m;
      if m < |t| { UnreadAt(u, m); }
      assert Unread() == t[m..];
      assert out + Remaining() == out + Written(t, Extra());
    }

    /** Four equal bytes and a count have been read, or what stood in the place of the count. */
    lemma LongRead(t: seq<Byte>, u: nat)
      requires Reading(t, u) && |t| >= 4 && nblockUsed == u + 5 && stateOutCh == t[0] == t[1] == t[2] == t[3]
      requires stateOutLen == 4 + (if |t| > 4 then t[4] else Extra()) as nat
      requires nblockUsed <= nblock ==> k0 == src.At(nblockUsed)
      ensures Valid() && Remaining() == Written(t, Extra())
    {
      hide Source.Valid, Source.Good, Written, Whole, Source.Block, Source.At, Copies, Lead, Sum, Table;
      WrittenRun(t, Extra());
      LeadFour(t);
      NothingWritten(Extra());
      if |t| > 4 {
        assert Unread() == t[5..];
      } else {
        assert Unread() == [];
        NothingAfter(Copies(stateOutCh, stateOutLen));
      }
    }

    /** m equal bytes have been fetched, and k0 is that byte. */
    ghost predicate Matched(t: seq<Byte>, u: nat, m: nat)
      reads this, src, src.tt, src.ll, src.ll.ll16, src.ll.ll4, src.cftab
    {
      && Reading(t, u) && |t| == nblock - u + 1 && 1 <= m <= |t| && nblockUsed == u + m - 1 && k0 == stateOutCh == t[0]
      && forall i :: 0 <= i < m ==> t[i] == t[0]
    }

    /** One more byte: does the run end here? The FAST code makes its first test before looking for the block's end. */
    method Extend(ghost t: seq<Byte>, ghost u: nat, m: nat, valueFirst: bool) returns (ended: bool)
      requires Matched(t, u, m) && m <= 3
      modifies this`k0, this`nblockUsed, this`stateOutLen, src
      ensures ended ==> Valid() && stateOutLen > 0 && Remaining() == Written(t, Extra()) && nblockUsed == u + m
      ensures !ended ==> Matched(t, u, m + 1)
    {
      hide Valid, Placed, Reading, Remaining, Source.Valid, Source.Good, Unread, Block, Extra, Written, Source.At;
      stateOutLen := m;
      var k1 := FetchNext(t, u);
      ended := true;
      if valueFirst {
        if k1 != k0 { k0 := k1; ShortRead(t, u, m); return; }
        if nblockUsed == nblock + 1 { ShortRead(t, u, m); return; }
      } else {
        if nblockUsed == nblock + 1 { ShortRead(t, u, m); return; }
        if k1 != k0 { k0 := k1; ShortRead(t, u, m); return; }
      }
      ended := false;
    }

    /** Read the next run. */
    method StartRun()
      requires Valid() && stateOutLen == 0 && nblockUsed <= nblock
      modifies this`k0, this`nblockUsed, this`stateOutLen, this`stateOutCh, src
      ensures Valid() && stateOutLen > 0 && Remaining() == old(Remaining()) && nblockUsed > old(nblockUsed)
    {
      hide Valid, Placed, Reading, Remaining, Source.Valid, Source.Good, Unread, Block, Extra, Written, Source.At;
      StartsReading();
      ghost var t, u := Unread(), nblockUsed;
      stateOutCh := k0;
      var ended := Extend(t, u, 1, src.fast && !src.randomised);
      if ended { return; }
      ended := Extend(t, u, 2, false);
      if ended { return; }
      ended := Extend(t, u, 3, false);
      if ended { return; }
      var k1 := FetchNext(t, u);
      stateOutLen := k1 as nat + 4;
      k0 := FetchNext(t, u);
      LongRead(t, u);
    }

    /** Some bytes of `all` have been written since `before`, using up the room, and the rest remains. */
    ghost predicate Slicing(before: seq<Byte>, all: seq<Byte>, avail: nat)
      reads this, src, src.tt, src.ll, src.ll.ll16, src.ll.ll4, src.cftab
    {
      Placed() && availOut <= avail && avail - availOut <= |all| && out == before + all[..avail - availOut] && Remaining() == all[avail - availOut..]
    }

    /** Exactly the first bytes that fit have been written. */
    ghost predicate Sliced(before: seq<Byte>, all: seq<Byte>, avail: nat)
      reads this, src, src.tt, src.ll, src.ll.ll16, src.ll.ll4, src.cftab
    {
      Slicing(before, all, avail) && (availOut == 0 || avail - availOut == |all|)
    }

    lemma Bounds()
      requires Valid()
      ensures Placed() && 1 <= nblockUsed <= nblock + 2
      ensures Remaining() == [] <==> stateOutLen == 0 && nblockUsed > nblock
      ensures nblockUsed == nblock + 2 ==> !Whole(Block())
      ensures nblockUsed == nblock + 1 ==> Whole(Block())
    {
      NothingWritten(Extra());
      if nblockUsed <= nblock { WrittenRun(Unread(), Extra()); }
    }

    method EmitOne(ghost before: seq<Byte>, ghost all: seq<Byte>, ghost avail: nat)
      requires Valid() && stateOutLen > 0 && availOut > 0 && Slicing(before, all, avail)
      modifies this`out, this`crc, this`stateOutLen, this`availOut
      ensures Valid() && Slicing(before, all, avail) && stateOutLen == old(stateOutLen) - 1
    {
      hide Source.Valid, Written, Whole, Source.Block, Source.At, InvertsSlots, Copies, Sum, Update, Placed, Remaining, Valid;
      ghost var k, rest := avail - availOut, Remaining();
      Emit();
      Bounds();
      assert all[k..] == [stateOutCh] + Remaining();
      assert all[k + 1..] == all[k..][1..] && all[..k + 1] == all[..k] + [all[k]];
    }

    lemma StartSlicing()
      requires Placed()
      ensures Slicing(out, Remaining(), availOut)
    {
      var all := Remaining();
      assert all[..0] == [] && all[0..] == all && out + [] == out;
    }

    lemma SlicingParts(before: seq<Byte>, all: seq<Byte>, avail: nat)
      requires Valid() && Slicing(before, all, avail)
      ensures availOut <= avail && avail - availOut <= |all| && (Remaining() == [] <==> avail - availOut == |all|)
    {
    }

    method NextRun(ghost before: seq<Byte>, ghost all: seq<Byte>, ghost avail: nat)
      requires Valid() && stateOutLen == 0 && nblockUsed <= nblock && Slicing(before, all, avail)
      modifies this`k0, this`nblockUsed, this`stateOutLen, this`stateOutCh, src
      ensures Valid() && Slicing(before, all, avail) && stateOutLen > 0 && nblockUsed > old(nblockUsed)
    {
      hide Source.Valid, Source.Good, Written, Whole, Source.Block, Source.At, InvertsSlots, Copies, Sum, Update, Placed, Remaining, Valid;
      StartRun();
      Bounds();
    }

    /** unRLE_obuf_to_output_FAST: as much as fits; corruption is reported as soon as the last run is out. */
    method WriteFast() returns (corrupt: bool)
      requires Valid() && src.fast && !src.randomised
      modifies this`k0, this`nblockUsed, this`stateOutLen, this`stateOutCh, this`out, this`crc, this`availOut, src
      ensures Valid() && Sliced(old(out), old(Remaining()), old(availOut))
      ensures corrupt == (!Whole(Block()) && |old(Remaining())| <= old(availOut))
      ensures !corrupt && Remaining() == [] ==> Finished()
    {
      hide Source.Valid, Source.Good, Written, Whole, Block, InvertsSlots, Copies, Sum, Update, Placed, Remaining, Valid, Slicing;
      Bounds();
      corrupt := false;
      ghost var before, all, avail := out, Remaining(), availOut;
      StartSlicing();
      while true
        invariant Valid() && Slicing(before, all, avail)
        decreases nblock + 2 - nblockUsed
      {
        Bounds();
        ghost var used := nblockUsed;
        if stateOutLen > 0 {
          while stateOutLen != 1
            invariant nblockUsed == used && Valid() && Slicing(before, all, avail) && stateOutLen > 0
            decreases stateOutLen
          {
            Bounds();
            SlicingParts(before, all, avail);
            if availOut == 0 { return; }
            EmitOne(before, all, avail);
          }
          Bounds();
          SlicingParts(before, all, avail);
          if availOut == 0 { return; }
          EmitOne(before, all, avail);
        }
        Bounds();
        SlicingParts(before, all, avail);
        if nblockUsed > nblock + 1 { return true; }
        if nblockUsed == nblock + 1 { return; }
        NextRun(before, all, avail);
        Bounds();
      }
    }

    /** unRLE_obuf_to_output_SMALL, which is also how the FAST one treats randomised blocks: the same bytes; corruption is reported when there is room for another byte. */
    method WriteSmall() returns (corrupt: bool)
      requires Valid() && (!src.fast || src.randomised)
      modifies this`k0, this`nblockUsed, this`stateOutLen, this`stateOutCh, this`out, this`crc, this`availOut, src
      ensures Valid() && Sliced(old(out), old(Remaining()), old(availOut))
      ensures corrupt == (!Whole(Block()) && |old(Remaining())| < old(availOut))
      ensures !corrupt && Remaining() == [] && Whole(Block()) ==> Finished()
    {
      hide Source.Valid, Source.Good, Written, Whole, Block, InvertsSlots, Copies, Sum, Update, Placed, Remaining, Valid, Slicing;
      Bounds();
      corrupt := false;
      ghost var before, all, avail := out, Remaining(), availOut;
      StartSlicing();
      while true
        invariant Valid() && Slicing(before, all, avail)
        decreases nblock + 2 - nblockUsed
      {
        Bounds();
        ghost var used := nblockUsed;
        while true
          invariant nblockUsed == used && Valid() && Slicing(before, all, avail)
          decreases stateOutLen
        {
          Bounds();
          SlicingParts(before, all, avail);
          if availOut == 0 { return; }
          if stateOutLen == 0 { break; }
          EmitOne(before, all, avail);
        }
        if nblockUsed == nblock + 1 { return; }
        if nblockUsed > nblock + 1 { return true; }
        NextRun(before, all, avail);
        Bounds();
      }
    }

    /** One call with room for `room` bytes. */
    method Call(room: nat) returns (corrupt: bool)
      requires Valid() && room > 0
      modifies this`k0, this`nblockUsed, this`stateOutLen, this`stateOutCh, this`out, this`crc, this`availOut, src
      ensures Valid() && old(out) <= out && |out| <= |old(out)| + room
      ensures corrupt ==> !Whole(Block())
      ensures !corrupt ==> if Finished() then Whole(Block()) && out == Expand(Block()) else |out| > |old(out)|
      ensures |out| <= |Written(Block(), Extra())|
    {
      hide Source.Valid, Source.Good, Written, Whole, Expand, Valid, Placed, Remaining, Block, Extra, Sliced;
      Bounds();
      ghost var before, rest := out, Remaining();
      availOut := room;
      if src.fast && !src.randomised { corrupt := WriteFast(); } else { corrupt := WriteSmall(); }
      Bounds();
      AfterCall(before, rest, room);
    }

    /** What a call has added, and what it means to be finished. */
    lemma AfterCall(before: seq<Byte>, all: seq<Byte>, avail: nat)
      requires Valid() && Sliced(before, all, avail)
      ensures before <= out && |out| == |before| + avail - availOut <= |before| + avail
      ensures availOut == 0 || (Remaining() == [] && |all| < avail)
      ensures |out| <= |Written(Block(), Extra())|
      ensures Finished() ==> Whole(Block()) && out == Expand(Block())
    {
      hide Source.Valid, Source.Good, Written, Whole, Expand, Placed, Remaining, Block, Extra;
      Bounds();
      if Finished() {
        WholeWritten(Block(), Extra());
        NothingAfter(out);
      }
    }
  }

  lemma WholeWritten(b: seq<Byte>, extra: Byte)
    requires Whole(b)
    ensures Written(b, extra) == Expand(b)
  {
    assert Expand(b) + [] == Expand(b);
  }

  lemma LeadFour(t: seq<Byte>)
    requires |t| >= 4 && t[0] == t[1] == t[2] == t[3]
    ensures Lead(t) == 4
  {
  }

  lemma NothingWritten(extra: Byte)
    ensures Written([], extra) == []
  {
  }
}
