/** The mask over randomised blocks (libc/bzlib_private.h:131-149, libc/randtable.c:27-80). */
module Randomise {
  import opened Words
  import opened Crc

  /** The lengths of the stretches in which exactly one byte is changed. */
  type Numbers = s: seq<nat> | |s| == 512 && forall i :: 0 <= i < 512 ==> s[i] >= 2 witness seq(512, _ => 2)

  /** How many bytes the first k stretches hold; the numbers are used over and over. */
  ghost function Ends(nums: Numbers, k: nat): nat {
    if k == 0 then 0 else Ends(nums, k - 1) + nums[(k - 1) % 512]
  }

  /** The j-th byte, counted from one, is the last but one of a stretch. */
  ghost predicate Flipped(nums: Numbers, j: nat) {
    exists k: nat :: k > 0 && Ends(nums, k) == j + 1
  }

  function Flip(c: Byte): Byte {
    if c % 2 == 0 then c + 1 else c - 1
  }

  ghost function Masked(nums: Numbers, b: seq<Byte>): (r: seq<Byte>)
    ensures |r| == |b| && forall m :: 0 <= m < |b| ==> r[m] == if Flipped(nums, m + 1) then Flip(b[m]) else b[m]
  {
    seq(|b|, m requires 0 <= m < |b| => if Flipped(nums, m + 1) then Flip(b[m]) else b[m])
  }

  /** Undoing the mask is putting it on again. */
  lemma MaskedTwice(nums: Numbers, b: seq<Byte>)
    ensures Masked(nums, Masked(nums, b)) == b
  {
    hide Flipped;
    forall m | 0 <= m < |b| ensures Masked(nums, Masked(nums, b))[m] == b[m] {
      FlipTwice(b[m]);
    }
  }

  /** Only the lowest bit is changed. */
  lemma FlipIs(c: Byte)
    ensures Flip(c) == Xor(c, 1)
  {
    XorZero(c / 2);
  }

  lemma FlipTwice(c: Byte)
    ensures Flip(Flip(c)) == c
  {
  }

  lemma {:induction false} EndsIncrease(nums: Numbers, i: nat, k: nat)
    requires i < k
    ensures Ends(nums, i) + 2 <= Ends(nums, k)
    decreases k
  {
    if i < k - 1 { EndsIncrease(nums, i, k - 1); }
  }

  /** In stretch k only the last byte but one is changed. */
  lemma FlippedWithin(nums: Numbers, k: nat, j: nat)
    requires k > 0 && Ends(nums, k - 1) < j <= Ends(nums, k)
    ensures Flipped(nums, j) <==> Ends(nums, k) == j + 1
  {
    hide Ends;
    if i: nat :| i > 0 && Ends(nums, i) == j + 1 && i != k {
      if i < k {
        if i < k - 1 { EndsIncrease(nums, i, k - 1); }
      } else {
        EndsIncrease(nums, k, i);
      }
      assert false;
    }
  }

  /** After j bytes the mask is in stretch k, with rNToGo bytes of it to go. */
  ghost predicate Tracks(nums: Numbers, rNToGo: nat, rTPos: nat, j: nat, k: nat) {
    rTPos == k % 512 && j + rNToGo == Ends(nums, k) && (if k == 0 then j == 0 else Ends(nums, k - 1) < j)
  }

  /** BZ_RAND_UPD_MASK: the countdown is at one exactly on the bytes to be changed. */
  method NextMask(nums: Numbers, toGo: nat, tPos: nat, ghost j: nat, ghost k: nat) returns (rNToGo: nat, rTPos: nat, ghost stretch: nat)
    requires Tracks(nums, toGo, tPos, j, k)
    ensures Tracks(nums, rNToGo, rTPos, j + 1, stretch)
    ensures rNToGo == 1 <==> Flipped(nums, j + 1)
  {
    rNToGo, rTPos, stretch := toGo, tPos, k;
    if rNToGo == 0 {
      rNToGo := nums[rTPos];
      rTPos := rTPos + 1;
      if rTPos == 512 { rTPos := 0; }
      stretch := k + 1;
      Wraps(k);
    }
    rNToGo := rNToGo - 1;
    FlippedWithin(nums, stretch, j + 1);
  }

  lemma Wraps(k: nat)
    ensures (k + 1) % 512 == if k % 512 == 511 then 0 else k % 512 + 1
  {
  }
}
