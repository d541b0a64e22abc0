/** Collecting input into a block: run-length coding, bytes in use, checksum (libc/bzlib.c:116-297). */
module BlockBuilder {
  import opened Words
  import opened RunLength
  import opened Crc

  const NO_CHAR := 256

  /** Bytes in a block are the bytes marked as in use. */
  ghost predicate Marks(inUse: seq<bool>, b: seq<Byte>) {
    |inUse| == 256 && forall c: Byte :: inUse[c] <==> c in b
  }

  lemma MarksMore(inUse: seq<bool>, b: seq<Byte>, c: Byte, inUse': seq<bool>, more: seq<Byte>)
    requires Marks(inUse, b) && inUse' == inUse[c := true] && more != [] && forall i :: 0 <= i < |more| ==> more[i] == c
    ensures Marks(inUse', b + more)
  {
    assert more[0] == c && c in b + more;
  }

  lemma MarksTwo(inUse: seq<bool>, b: seq<Byte>, c: Byte, d: Byte, inUse': seq<bool>)
    requires Marks(inUse, b) && inUse' == inUse[c := true][d := true]
    ensures Marks(inUse', b + (Copies(c, 4) + [d]))
  {
    MarksMore(inUse, b, c, inUse[c := true], Copies(c, 4));
    MarksMore(inUse[c := true], b + Copies(c, 4), d, inUse', [d]);
    assert b + Copies(c, 4) + [d] == b + (Copies(c, 4) + [d]);
  }

  lemma {:induction false} SumCopies(t: seq<nat>, crc: nat, s: seq<Byte>, c: Byte, n: nat)
    requires Table(t) && crc < WORD
    ensures n > 0 ==> Sum(t, crc, s + Copies(c, n)) == Update(t, Sum(t, crc, s + Copies(c, n - 1)), c)
    ensures n == 0 ==> s + Copies(c, n) == s
  {
    if n > 0 {
      assert s + Copies(c, n) == s + Copies(c, n - 1) + [c];
      SumNext(t, crc, s + Copies(c, n - 1), c);
    }
  }

  /** The block being filled, and the run of equal bytes not yet added to it. */
  class Builder {
    const block: array<Byte>
    const inUse: array<bool>
    const table: seq<nat>
    var nblock: nat
    var blockCRC: nat
    var stateInCh: nat
    var stateInLen: nat

    ghost function Bytes(): seq<Byte>
      requires nblock <= block.Length
      reads this`nblock, block
    {
      block[..nblock]
    }

    /** The pending run can be added: the decoder would not join it to the run before. */
    ghost predicate Pending(run: Run)
      reads this`stateInCh, this`stateInLen
    {
      if stateInCh < NO_CHAR then 1 <= stateInLen <= 255 && Breaks(run, stateInCh) else stateInCh == NO_CHAR && stateInLen == 0
    }

    ghost predicate Valid()
      reads this, block, inUse
    {
      && nblock <= block.Length && inUse.Length == 256 && Table(table) && blockCRC < WORD
      && Marks(inUse[..], Bytes()) && blockCRC == Sum(table, INITIAL, Expand(Bytes()))
      && Whole(Bytes()) && Pending(After(FRESH, Bytes()))
    }

    /** The input bytes that block and pending run stand for. */
    ghost function Taken(): seq<Byte>
      requires Valid()
      reads this, block, inUse
    {
      Expand(Bytes()) + Waiting()
    }

    /** The pending run. */
    ghost function Waiting(): seq<Byte>
      reads this`stateInCh, this`stateInLen
    {
      if stateInCh < NO_CHAR then Copies(stateInCh, stateInLen) else []
    }

    constructor (capacity: nat, table: seq<nat>)
      requires Table(table)
      ensures Valid() && Taken() == [] && nblock == 0 && block.Length == capacity && this.table == table && IsEmpty()
      ensures fresh(block) && fresh(inUse)
    {
      block := new Byte[capacity](_ => 0);
      inUse := new bool[256](_ => false);
      this.table, nblock, blockCRC, stateInCh, stateInLen := table, 0, INITIAL, NO_CHAR, 0;
      new;
      assert Bytes() == [];
      assert Expand([]) == [];
    }

    /** isempty_RL */
    predicate IsEmpty()
      reads this`stateInCh, this`stateInLen
    {
      !(stateInCh < NO_CHAR && stateInLen > 0)
    }

    /** The part of prepare_new_block that concerns the block; a pending run stays. */
    method Clear()
      requires Valid()
      modifies this`nblock, this`blockCRC, inUse
      ensures Valid() && nblock == 0
      ensures Taken() == Waiting()
    {
      nblock := 0;
      blockCRC := INITIAL;
      for i := 0 to 256
        modifies inUse
        invariant forall k :: 0 <= k < i ==> !inUse[k]
      {
        inUse[i] := false;
      }
      assert Bytes() == [] && After(FRESH, []) == FRESH;
    }

    method PutByte(c: Byte)
      requires nblock < block.Length
      modifies this`nblock, block
      ensures nblock == old(nblock) + 1 <= block.Length && Bytes() == old(Bytes()) + [c]
    {
      block[nblock] := c;
      nblock := nblock + 1;
    }

    method PutCopies(c: Byte, n: nat)
      requires nblock + n <= block.Length
      modifies this`nblock, block
      ensures nblock == old(nblock) + n <= block.Length && Bytes() == old(Bytes()) + Copies(c, n)
    {
      ghost var was := Bytes();
      for i := 0 to n
        invariant nblock == old(nblock) + i && Bytes() == was + Copies(c, i)
      {
        PutByte(c);
        assert Copies(c, i + 1) == Copies(c, i) + [c];
      }
    }

    /** The checksum over the run about to be added. */
    method UpdateCRC(c: Byte, n: nat, ghost data: seq<Byte>)
      requires Table(table) && blockCRC < WORD && blockCRC == Sum(table, INITIAL, data)
      modifies this`blockCRC
      ensures blockCRC < WORD && blockCRC == Sum(table, INITIAL, data + Copies(c, n))
    {
      hide Sum, Update;
      SumCopies(table, INITIAL, data, c, 0);
      for i := 0 to n
        invariant blockCRC < WORD && blockCRC == Sum(table, INITIAL, data + Copies(c, i))
      {
        SumCopies(table, INITIAL, data, c, i + 1);
        blockCRC := Update(table, blockCRC, c);
      }
    }

    /** add_pair_to_block */
    method AddPair()
      requires Valid() && stateInCh < NO_CHAR && nblock + 5 <= block.Length
      modifies this`nblock, this`blockCRC, block, inUse
      ensures nblock <= old(nblock) + 5 && nblock > old(nblock) && Added(old(Bytes()), old(Taken()))
    {
      hide Sum, Update, Expand, After, Breaks, Table;
      ghost var b, used := Bytes(), inUse[..];
      var ch: Byte := stateInCh;
      AppendPair(b, ch, stateInLen);
      UpdateCRC(ch, stateInLen, Expand(b));
      inUse[stateInCh] := true;
      if stateInLen < 4 {
        assert inUse[..] == used[ch := true];
        PutCopies(ch, stateInLen);
        MarksMore(used, b, ch, inUse[..], Copies(ch, stateInLen));
      } else {
        inUse[stateInLen - 4] := true;
        assert inUse[..] == used[ch := true][stateInLen - 4 := true];
        PutCopies(ch, 4);
        PutByte(stateInLen - 4);
        assert b + Copies(ch, 4) + [stateInLen - 4] == b + (Copies(ch, 4) + [stateInLen - 4]);
        MarksTwo(used, b, ch, stateInLen - 4, inUse[..]);
      }
    }

    /** The pending run has become part of the block, and has yet to be replaced. */
    ghost predicate Added(b: seq<Byte>, taken: seq<Byte>)
      reads this, block, inUse
    {
      && nblock <= block.Length && inUse.Length == 256 && Table(table) && blockCRC < WORD
      && Marks(inUse[..], Bytes()) && blockCRC == Sum(table, INITIAL, Expand(Bytes()))
      && stateInCh < NO_CHAR && 1 <= stateInLen <= 255 && Expand(Bytes()) == taken
      && After(FRESH, Bytes()) == if stateInLen < 4 then Run(stateInCh, stateInLen) else Run(stateInCh, 0)
    }

    /** flush_RL */
    method FlushRun()
      requires Valid() && nblock + 5 <= block.Length
      modifies this`nblock, this`blockCRC, this`stateInCh, this`stateInLen, block, inUse
      ensures Valid() && nblock <= old(nblock) + 5 && Taken() == old(Taken()) && IsEmpty() && stateInCh == NO_CHAR
    {
      hide Sum, Update, Expand, Marks;
      if stateInCh < NO_CHAR { AddPair(); }
      stateInCh, stateInLen := NO_CHAR, 0;
    }

    /** ADD_CHAR_TO_BLOCK. With no run pending the block must be empty: a flushed run is always followed by a new block. */
    method AddChar(zchh: Byte)
      requires Valid() && nblock + 5 <= block.Length && (stateInCh == NO_CHAR ==> nblock == 0)
      modifies this`nblock, this`blockCRC, this`stateInCh, this`stateInLen, block, inUse
      ensures Valid() && nblock <= old(nblock) + 5 && Taken() == old(Taken()) + [zchh] && !IsEmpty()
    {
      hide Sum, Update, Expand, Marks;
      ghost var b, used := Bytes(), inUse[..];
      if zchh != stateInCh && stateInLen == 1 {
        var ch: Byte := stateInCh;
        AppendPair(b, ch, 1);
        assert Pair(ch, 1) == [ch] == Copies(ch, 1);
        SumCopies(table, INITIAL, Expand(b), ch, 0);
        SumCopies(table, INITIAL, Expand(b), ch, 1);
        blockCRC := Update(table, blockCRC, ch);
        inUse[stateInCh] := true;
        assert inUse[..] == used[ch := true];
        PutByte(ch);
        MarksMore(used, b, ch, inUse[..], [ch]);
        stateInCh := zchh;
        assert Copies(zchh, 1) == [zchh];
      } else if zchh != stateInCh || stateInLen == 255 {
        if stateInCh < NO_CHAR { AddPair(); } else { assert b == []; }
        stateInCh := zchh;
        stateInLen := 1;
        assert Copies(zchh, 1) == [zchh];
      } else {
        assert Copies(stateInCh, stateInLen + 1) == Copies(stateInCh, stateInLen) + [zchh];
        assert Expand(b) + (Copies(stateInCh, stateInLen) + [zchh]) == Expand(b) + Copies(stateInCh, stateInLen) + [zchh];
        stateInLen := stateInLen + 1;
      }
    }
  }
}
