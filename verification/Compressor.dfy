/** The streaming compressor (libc/bzlib.c:115-464, libc/compress.c:597-662). */
module Compressor {
  import opened Words
  import opened BitStream
  import opened CanonicalCode
  import opened RunLength
  import opened Crc
  import opened Stream
  import opened Randomise
  import opened BlockFormat
  import opened BlockBuilder
  import opened CompressBlock
  import SendBlock

  datatype Mode = Idle | Running | Flushing | Finishing
  datatype Phase = InputPhase | OutputPhase
  datatype Action = Run | Flush | Finish | Other
  datatype Code = RunOk | FlushOk | FinishOk | StreamEnd | SequenceError | ParamError

  // ---- appending to a stream ----

  lemma {:induction false} BlocksAppend(t: seq<nat>, plans: seq<Plan>, blocks: seq<seq<Byte>>, level: nat, e: Plan, b: seq<Byte>)
    requires Table(t) && AllPlanned(plans, blocks, level) && Planned(e, b, level)
    ensures AllPlanned(plans + [e], blocks + [b], level)
    ensures BlocksBits(t, plans + [e], blocks + [b], level) == BlocksBits(t, plans, blocks, level) + BlockBits(t, e, b, level)
    decreases |blocks|
  {
    hide Planned, BlockBits;
    if blocks == [] {
      assert plans + [e] == [e] && blocks + [b] == [b];
      assert BlocksBits(t, [], [], level) == [];
      assert BlockBits(t, e, b, level) + [] == BlockBits(t, e, b, level);
    } else {
      BlocksAppend(t, plans[1..], blocks[1..], level, e, b);
      assert (plans + [e])[1..] == plans[1..] + [e] && (blocks + [b])[1..] == blocks[1..] + [b];
    }
  }

  lemma {:induction false} CombinedAppend(t: seq<nat>, combined: nat, blocks: seq<seq<Byte>>, b: seq<Byte>)
    requires Table(t) && combined < WORD
    ensures Combined(t, combined, blocks + [b]) == Combine(Combined(t, combined, blocks), Checksum(t, Expand(b)))
    decreases |blocks|
  {
    hide Checksum, Expand, Combine;
    if blocks == [] {
      assert blocks + [b] == [b];
    } else {
      CombinedAppend(t, Combine(combined, Checksum(t, Expand(blocks[0]))), blocks[1..], b);
      assert (blocks + [b])[1..] == blocks[1..] + [b];
    }
  }

  lemma {:induction false} DataAppend(blocks: seq<seq<Byte>>, b: seq<Byte>)
    ensures Data(blocks + [b]) == Data(blocks) + Expand(b)
  {
    hide Expand;
    if blocks == [] {
      assert blocks + [b] == [b];
      assert Expand(b) + Data([]) == Expand(b);
    } else {
      DataAppend(blocks[1..], b);
      assert (blocks + [b])[1..] == blocks[1..] + [b];
    }
  }

  // ---- capacity ----

  /** The room in arr2 behind the largest possible block, in bytes. */
  function ZbitsRoom(level: nat): nat {
    4 * (100000 * level + 34) - (100000 * level - 10)
  }

  /** Left-over bits, header, the largest block and trailer all fit. */
  lemma RoomSuffices(level: nat, n: nat)
    requires 1 <= level <= 9 && n <= 100000 * level - 10
    ensures 32 + 32 + BlockLimit(n) + 80 <= 8 * ZbitsRoom(level)
  {
  }

  lemma EmptyStream(t: seq<nat>, level: nat)
    requires Table(t)
    ensures AllPlanned([], [], level) && Combined(t, 0, []) == 0 && Data([]) == [] && BytesToBits([]) == []
  {
  }

  lemma WriterStart(w: BitWriter)
    requires w.Valid() && w.Stream() == []
    ensures w.numZ == 0 <= w.zbits.Length
  {
    assert |BytesToBits(w.zbits[..w.numZ])| == 8 * w.numZ;
  }

  /** A stream that stands for `data`, with less than a byte of padding behind it. */
  ghost predicate Decodes(parsed: Read<seq<Byte>>, data: seq<Byte>) {
    parsed.Got? && parsed.value == data && |parsed.rest| < 8
  }

  // ---- the compressor ----

  class EState {
    const level: nat
    const nblockMAX: nat
    const bld: Builder
    const w: BitWriter
    const zbits: array<Byte>
    var mode: Mode
    var state: Phase
    var availInExpect: nat
    var stateOutPos: nat
    var blockNo: nat
    var combinedCRC: nat
    // the caller's side: input still to be taken, room for output, and all output so far
    var input: seq<Byte>
    var availOut: nat
    var output: seq<Byte>
    // what has happened so far
    ghost var consumed: seq<Byte>
    ghost var blocks: seq<seq<Byte>>
    ghost var plans: seq<Plan>
    ghost var ended: bool
    ghost var pad: nat

    ghost predicate Shape()
      reads w
    {
      && 1 <= level <= 9 && nblockMAX == 100000 * level - 19 && bld.block.Length == 100000 * level
      && zbits.Length == ZbitsRoom(level) && bld.block != zbits && w.zbits == zbits && Table(bld.table)
    }

    /** The header is out, or being written out. */
    ghost predicate Opened()
      reads this`blockNo, this`state
    {
      blockNo > 1 || state.OutputPhase?
    }

    ghost predicate Recorded()
      reads this`blocks, this`plans, this`combinedCRC
    {
      Table(bld.table) && AllPlanned(plans, blocks, level) && combinedCRC < WORD && combinedCRC == Combined(bld.table, 0, blocks)
    }

    ghost function BlocksSoFar(): seq<bool>
      requires Recorded()
      reads this`blocks, this`plans, this`combinedCRC
    {
      BlocksBits(bld.table, plans, blocks, level)
    }

    /** The bits that must be in the output once everything written has been delivered. */
    ghost function Written(): seq<bool>
      requires Recorded() && 1 <= level <= 9
      reads this`blocks, this`plans, this`combinedCRC, this`blockNo, this`state, this`ended, this`pad
    {
      if ended then StreamBits(bld.table, plans, blocks, level) + ToBits(0, pad)
      else if Opened() then HeaderBits(level) + BlocksSoFar()
      else []
    }

    /** The bits written but not yet delivered. */
    ghost function Tail(): seq<bool>
      requires stateOutPos <= w.numZ <= w.zbits.Length && (!ended ==> w.Valid())
      reads this`stateOutPos, this`ended, w, w.zbits
    {
      if ended then BytesToBits(w.zbits[stateOutPos..w.numZ]) else w.Stream()[8 * stateOutPos..]
    }

    ghost predicate Emission()
      reads this`blocks, this`plans, this`combinedCRC, this`blockNo, this`state, this`ended, this`pad
      reads this`stateOutPos, this`output, w, w.zbits
    {
      && Recorded() && 1 <= level <= 9 && stateOutPos <= w.numZ <= w.zbits.Length && (!ended ==> w.Valid()) && (ended ==> pad < 8)
      && BytesToBits(output) + Tail() == Written()
    }

    /** All input taken is in a finished block, in the open block, or in the pending run. */
    ghost predicate Accounting()
      reads this`consumed, this`blocks, this`state, bld, bld.block, bld.inUse
    {
      bld.Valid() && consumed == Data(blocks) + (if state.InputPhase? then bld.Taken() else bld.Waiting())
    }

    ghost predicate Control()
      reads this`state, this`stateOutPos, this`ended, this`mode, this`availInExpect, this`blockNo, this`blocks, w`numZ, bld`nblock, bld`stateInCh, bld`stateInLen
    {
      && blockNo >= 1 && (!Opened() ==> blocks == [])
      && (state.InputPhase? ==> stateOutPos == w.numZ == 0 && !ended && bld.nblock <= 100000 * level - 10)
      && (ended ==> (mode.Finishing? || mode.Idle?) && availInExpect == 0 && bld.IsEmpty())
      && (mode.Idle? ==> ended)
    }

    ghost predicate Core()
      reads this, bld, bld.block, bld.inUse, w, w.zbits
    {
      Shape() && Emission() && Accounting() && Control()
    }

    /** After handle_compress. */
    ghost predicate Resting()
      reads this, bld, bld.block, bld.inUse, w, w.zbits
    {
      && (state.InputPhase? ==> bld.nblock < nblockMAX && (bld.stateInCh == NO_CHAR ==> bld.nblock == 0))
      && (state.OutputPhase? && !ended ==> stateOutPos < w.numZ && (mode.Flushing? || !bld.IsEmpty()))
      && Core()
    }

    /** Between calls: output that is waiting is still to be delivered. */
    ghost predicate Valid()
      reads this, bld, bld.block, bld.inUse, w, w.zbits
    {
      (ended && !mode.Idle? ==> stateOutPos < w.numZ) && Resting()
    }

    /** BZ2_bzCompressInit, with the first block prepared. */
    constructor (blockSize100k: nat, crcTable: seq<nat>)
      requires 1 <= blockSize100k <= 9 && Table(crcTable)
      ensures Valid() && consumed == [] && output == [] && input == [] && mode == Running && level == blockSize100k
      ensures fresh(bld) && fresh(bld.block) && fresh(bld.inUse) && fresh(w) && fresh(zbits) && bld.table == crcTable
    {
      hide BitWriter.Valid, BitWriter.Stream, Builder.Valid, Builder.Taken, BytesToBits, Combined, AllPlanned, Data;
      level, nblockMAX := blockSize100k, 100000 * blockSize100k - 19;
      var b := new Builder(100000 * blockSize100k, crcTable);
      var z := new Byte[ZbitsRoom(blockSize100k)](_ => 0);
      var writer := new BitWriter(z);
      bld, zbits, w := b, z, writer;
      mode, state, availInExpect, stateOutPos, blockNo, combinedCRC := Running, InputPhase, 0, 0, 1, 0;
      input, availOut, output := [], 0, [];
      consumed, blocks, plans, ended, pad := [], [], [], false, 0;
      new;
      EmptyStream(crcTable, level);
      WriterStart(w);
    }

    // ---- taking input ----

    /** One byte of input goes into the block or the run. */
    method TakeByte()
      requires Core() && state.InputPhase? && input != [] && bld.nblock < nblockMAX && (bld.stateInCh == NO_CHAR ==> bld.nblock == 0)
      modifies this`input, this`consumed, bld, bld.block, bld.inUse
      ensures Core() && input == old(input)[1..] && consumed == old(consumed) + [old(input)[0]]
      ensures !bld.IsEmpty() && bld.stateInCh != NO_CHAR && bld.nblock <= nblockMAX + 4
    {
      hide Emission, Builder.Valid, Builder.Taken, Expand;
      ghost var c := input[0];
      bld.AddChar(input[0]);
      assert consumed + [c] == Data(blocks) + bld.Taken();
      input := input[1..];
      consumed := consumed + [c];
    }

    // ---- compressing a block ----

    /** The bits so far, with nothing yet delivered of the current buffer. */
    lemma Carried()
      requires Core() && state.InputPhase?
      ensures Recorded() && 1 <= level <= 9 && stateOutPos == 0 && blockNo >= 1 && bld.nblock <= 100000 * level - 10
      ensures w.Valid() && |w.Stream()| <= 32
      ensures BytesToBits(output) + w.Stream() == if blockNo > 1 then HeaderBits(level) + BlocksSoFar() else []
      ensures blockNo == 1 ==> blocks == [] && BlocksSoFar() == []
    {
      hide HeaderBits, BlocksBits, Combined, Planned, ToBits;
      assert w.zbits[..0] == [];
      NoBits();
      assert w.Stream()[0..] == w.Stream();
      if blockNo == 1 { NoBlocks(bld.table, plans, level); }
    }

    /** The stream header, before the first block. */
    method WriteHeader()
      requires w.Valid() && Shape() && |w.Stream()| <= 32
      modifies w, zbits
      ensures w.Valid() && Shape() && w.Stream() == old(w.Stream()) + (if blockNo == 1 then HeaderBits(level) else [])
      ensures |w.Stream()| <= 64
    {
      hide BitWriter.Valid, BitWriter.Stream, ToBits, BytesToBits;
      RoomSuffices(level, 0);
      if blockNo == 1 {
        Pow2Values();
        PutBytes(w, HEADER);
        w.Put(8, 0x30 + level);
      }
    }

    /** The trailer, after the last block, and the bits that fill its last byte. */
    method WriteTrailer() returns (ghost padding: nat)
      requires w.Valid() && Shape() && combinedCRC < WORD && |w.Stream()| + 80 <= 8 * zbits.Length
      modifies w, zbits
      ensures Shape() && 0 < w.numZ <= w.zbits.Length && padding < 8
      ensures BytesToBits(w.zbits[..w.numZ]) == old(w.Stream()) + EndBits(combinedCRC) + ToBits(0, padding)
    {
      hide BitWriter.Valid, BitWriter.Stream, ToBits, BytesToBits;
      ghost var was := w.Stream();
      PutBytes(w, END_MAGIC);
      PutWord(w, combinedCRC);
      assert was + BytesToBits(END_MAGIC) + ToBits(combinedCRC, 32) == was + EndBits(combinedCRC);
      w.Finish();
      padding := -w.bsLive;
      assert |BytesToBits(w.zbits[..w.numZ])| == 8 * w.numZ && |EndBits(combinedCRC)| > 0;
    }

    /** The block's own part of BZ2_compressBlock. */
    method WriteBody() returns (ghost bits: seq<bool>)
      requires w.Valid() && Shape() && Recorded() && bld.Valid() && 0 < bld.nblock <= 100000 * level - 10 && |w.Stream()| <= 64
      modifies this`combinedCRC, this`blocks, this`plans, w, zbits, bld.block
      ensures w.Valid() && Shape() && Recorded() && bld.Valid() && bld.Taken() == old(bld.Taken())
      ensures blocks == old(blocks) + [old(bld.block[..bld.nblock])] && |w.Stream()| + 80 <= 8 * zbits.Length
      ensures BlocksSoFar() == old(BlocksSoFar()) + bits && w.Stream() == old(w.Stream()) + bits
    {
      hide BitWriter.Valid, BitWriter.Stream, BytesToBits, ToBits, Builder.Valid, Builder.Taken, Planned, BlockBits, BlocksBits, Combined, Sum;
      hide Expand, AllPlanned;
      BuilderParts(bld);
      ghost var b := bld.Bytes();
      RoomSuffices(level, bld.nblock);
      var crc := Finalise(bld.blockCRC);
      combinedCRC := Combine(combinedCRC, crc);
      ghost var plan := EncodeBlock(w, bld, crc, level);
      BlocksAppend(bld.table, plans, blocks, level, plan, b);
      CombinedAppend(bld.table, 0, blocks, b);
      plans, blocks := plans + [plan], blocks + [b];
      bits := BlockBits(bld.table, plan, b, level);
    }

    /** Header if need be, and the block if there is one. */
    method WriteOpenBlock()
      requires Core() && state.InputPhase?
      modifies this`combinedCRC, this`blocks, this`plans, w, zbits, bld.block
      ensures Shape() && Recorded() && w.Valid() && bld.Valid() && stateOutPos == 0
      ensures BytesToBits(output) + w.Stream() == HeaderBits(level) + BlocksSoFar() && |w.Stream()| + 80 <= 8 * zbits.Length
      ensures consumed == Data(blocks) + bld.Waiting()
    {
      hide BitWriter.Valid, BitWriter.Stream, BytesToBits, Builder.Valid, Builder.Taken, HeaderBits, BlocksSoFar, Data, Combined, AllPlanned;
      hide Emission, Control;
      Carried();
      ghost var out0, s0 := BytesToBits(output), w.Stream();
      ghost var head, before := HeaderBits(level), BlocksSoFar();
      WriteHeader();
      HeaderDone(out0, s0, blockNo == 1, head, before, w.Stream());
      ghost var s1 := w.Stream();
      if bld.nblock > 0 {
        TakenIs(bld, blocks);
        ghost var bits := WriteBody();
        BlockDone(out0, s1, head, before, bits);
      } else {
        NothingTaken(bld, blocks);
        RoomSuffices(level, 0);
      }
    }

    /** BZ2_compressBlock: the open block becomes a coded block, and the last call also ends the stream. */
    method WriteBlock(last: bool)
      requires Core() && state.InputPhase? && (last ==> mode.Finishing? && availInExpect == 0 && bld.IsEmpty())
      modifies this`combinedCRC, this`blocks, this`plans, this`state, this`ended, this`pad, w, zbits, bld.block
      ensures Core() && state.OutputPhase? && ended == last && (last ==> stateOutPos < w.numZ)
    {
      hide BitWriter.Valid, BitWriter.Stream, BytesToBits, ToBits, Builder.Valid, Builder.Taken, BlocksBits, Combined, AllPlanned;
      hide HeaderBits, EndBits, Data;
      ghost var out0 := BytesToBits(output);
      WriteOpenBlock();
      ghost var s2 := w.Stream();
      state := OutputPhase;
      if last {
        pad := WriteTrailer();
        ended := true;
        TailBits(out0, s2, EndBits(combinedCRC), ToBits(0, pad));
        assert w.zbits[0..w.numZ] == w.zbits[..w.numZ];
      } else {
        WriterParts(w);
        assert w.Stream()[0..] == w.Stream();
      }
    }

    // ---- delivering output ----

    /** Delivering one byte moves its eight bits from the tail to the output. */
    method DeliverByte()
      requires Core() && state.OutputPhase? && stateOutPos < w.numZ && availOut > 0
      modifies this`output, this`availOut, this`stateOutPos
      ensures Core() && stateOutPos == old(stateOutPos) + 1 && availOut == old(availOut) - 1 && |output| == |old(output)| + 1 && old(output) <= output
    {
      hide BitWriter.Valid, BitWriter.Stream, BytesToBits, ToBits, Accounting, Written, Recorded, Shape, Emission, Tail;
      EmissionParts();
      ghost var out0 := output;
      TailNext();
      Stored(output, w.zbits[stateOutPos]);
      output := output + [w.zbits[stateOutPos]];
      stateOutPos := stateOutPos + 1;
      availOut := availOut - 1;
      TailIs();
      Regroup(BytesToBits(out0), ToBits(w.zbits[stateOutPos - 1], 8), Tail());
      PackEmission();
    }

    lemma EmissionParts()
      requires Emission()
      ensures Recorded() && 1 <= level <= 9 && stateOutPos <= w.numZ <= w.zbits.Length && (!ended ==> w.Valid()) && (ended ==> pad < 8)
      ensures BytesToBits(output) + Tail() == Written()
    {
    }

    lemma PackEmission()
      requires Recorded() && 1 <= level <= 9 && stateOutPos <= w.numZ <= w.zbits.Length && (!ended ==> w.Valid()) && (ended ==> pad < 8)
      requires BytesToBits(output) + Tail() == Written()
      ensures Emission()
    {
    }

    lemma TailIs()
      requires stateOutPos <= w.numZ <= w.zbits.Length && (!ended ==> w.Valid())
      ensures Tail() == if ended then BytesToBits(w.zbits[stateOutPos..w.numZ]) else w.Stream()[8 * stateOutPos..]
    {
    }

    lemma TailNext()
      requires stateOutPos < w.numZ <= w.zbits.Length && (!ended ==> w.Valid())
      ensures Tail() == ToBits(w.zbits[stateOutPos], 8)
                          + (if ended then BytesToBits(w.zbits[stateOutPos + 1..w.numZ]) else w.Stream()[8 * (stateOutPos + 1)..])
    {
      hide BitWriter.Valid, ToBits;
      if ended {
        NextByte(w.zbits[stateOutPos..w.numZ]);
        assert w.zbits[stateOutPos..w.numZ][1..] == w.zbits[stateOutPos + 1..w.numZ];
      } else {
        WriterParts(w);
        ByteInStream(w.zbits[..w.numZ], ToBits(w.live, w.bsLive), stateOutPos);
      }
    }

    /** copy_output_until_stop */
    method CopyOutput() returns (progress: bool)
      requires Core() && state.OutputPhase?
      modifies this`output, this`availOut, this`stateOutPos
      ensures Core() && old(output) <= output && (progress <==> |output| > |old(output)|)
      ensures |output| - |old(output)| == old(availOut) - availOut == stateOutPos - old(stateOutPos)
      ensures availOut == 0 || stateOutPos >= w.numZ
    {
      hide Core;
      progress := false;
      while true
        invariant Core() && old(output) <= output && (progress <==> |output| > |old(output)|)
        invariant |output| - |old(output)| == old(availOut) - availOut == stateOutPos - old(stateOutPos)
        decreases availOut
      {
        if availOut == 0 { break; }
        if stateOutPos >= w.numZ { break; }
        progress := true;
        DeliverByte();
      }
    }

    /** prepare_new_block, once everything has been delivered. */
    method PrepareNewBlock()
      requires Core() && state.OutputPhase? && !ended && stateOutPos >= w.numZ
      modifies this`stateOutPos, this`blockNo, this`state, w`numZ, bld, bld.inUse
      ensures Core() && state.InputPhase? && bld.nblock == 0 && bld.stateInCh == old(bld.stateInCh) && bld.stateInLen == old(bld.stateInLen)
    {
      hide BitWriter.Valid, BitWriter.Stream, BytesToBits, Builder.Valid, Builder.Taken, Data, Recorded, HeaderBits, BlocksSoFar;
      WriterParts(w);
      ghost var pos, before := stateOutPos, w.Stream();
      bld.Clear();
      ghost var carried := w.Rewind();
      BitsDropped(before, pos, carried);
      stateOutPos := 0;
      blockNo := blockNo + 1;
      state := InputPhase;
      assert w.Stream()[0..] == w.Stream();
    }

    // ---- the state machine ----

    /** How much of the input `given` at the start of a call has been taken. */
    ghost predicate Took(given: seq<Byte>, before: seq<Byte>)
      reads this`input, this`consumed
    {
      var k := |given| - |input|;
      0 <= k && input == given[k..] && consumed == before + given[..k]
    }

    lemma TookOne(given: seq<Byte>, before: seq<Byte>, was: seq<Byte>, had: seq<Byte>)
      requires |was| <= |given| && was == given[|given| - |was|..] && had == before + given[..|given| - |was|] && was != []
      requires input == was[1..] && consumed == had + [was[0]]
      ensures Took(given, before)
    {
      var k := |given| - |was|;
      assert given[..k + 1] == given[..k] + [given[k]];
    }

    lemma TookParts(given: seq<Byte>, before: seq<Byte>)
      requires Took(given, before)
      ensures |input| <= |given| && input == given[|given| - |input|..] && consumed == before + given[..|given| - |input|]
    {
    }

    /** One byte, counted against the input expected while flushing or finishing. */
    method TakeCounted()
      requires Core() && state.InputPhase? && input != [] && bld.nblock < nblockMAX && (bld.stateInCh == NO_CHAR ==> bld.nblock == 0)
      requires !mode.Running? ==> availInExpect == |input|
      modifies this`input, this`consumed, this`availInExpect, bld, bld.block, bld.inUse
      ensures Core() && input == old(input)[1..] && consumed == old(consumed) + [old(input)[0]]
      ensures !bld.IsEmpty() && bld.stateInCh != NO_CHAR && bld.nblock <= nblockMAX + 4
      ensures !mode.Running? ==> availInExpect == |input|
    {
      hide Emission, Accounting, Shape;
      TakeByte();
      if !mode.Running? { availInExpect := availInExpect - 1; }
    }

    /** copy_input_until_stop */
    method CopyInput() returns (progress: bool)
      requires Core() && state.InputPhase? && (bld.stateInCh == NO_CHAR ==> bld.nblock == 0) && bld.nblock < nblockMAX
      requires !mode.Running? ==> availInExpect == |input|
      modifies this`input, this`consumed, this`availInExpect, bld, bld.block, bld.inUse
      ensures Core() && Took(old(input), old(consumed)) && (progress <==> |input| < |old(input)|)
      ensures !mode.Running? ==> availInExpect == |input|
      ensures bld.nblock <= nblockMAX + 4 && (bld.nblock >= nblockMAX || input == [])
      ensures progress ==> !bld.IsEmpty() && bld.stateInCh != NO_CHAR
      ensures !progress ==> bld.stateInCh == old(bld.stateInCh) && bld.nblock == old(bld.nblock)
    {
      hide Core, Took;
      progress := false;
      ghost var given, before := input, consumed;
      TookNone();
      while true
        invariant Core() && state.InputPhase? && (bld.stateInCh == NO_CHAR ==> bld.nblock == 0) && bld.nblock <= nblockMAX + 4
        invariant Took(given, before) && (!mode.Running? ==> availInExpect == |input|)
        invariant if progress then |input| < |given| && !bld.IsEmpty() && bld.stateInCh != NO_CHAR
                  else input == given && bld.stateInCh == old(bld.stateInCh) && bld.nblock == old(bld.nblock)
        decreases |input|
      {
        if bld.nblock >= nblockMAX { break; }
        if input == [] { break; }
        if !mode.Running? && availInExpect == 0 { break; }
        progress := true;
        ghost var was, had := input, consumed;
        TookParts(given, before);
        TakeCounted();
        TookOne(given, before, was, had);
      }
    }

    /** flush_RL, with the block accounted for. */
    method FlushPending()
      requires Core() && state.InputPhase? && bld.nblock <= nblockMAX + 4
      modifies bld, bld.block, bld.inUse
      ensures Core() && bld.IsEmpty() && bld.stateInCh == NO_CHAR
    {
      hide Emission, Builder.Valid, Builder.Taken, Data;
      bld.FlushRun();
    }

    /** Each time round the loop of handle_compress. */
    ghost predicate Turning()
      reads this, bld, bld.block, bld.inUse, w, w.zbits
    {
      && !mode.Idle? && (!mode.Running? ==> availInExpect == |input|)
      && (state.InputPhase? ==> bld.nblock < nblockMAX && (bld.stateInCh == NO_CHAR ==> bld.nblock == 0))
      && (state.OutputPhase? && !ended ==> mode.Flushing? || !bld.IsEmpty())
      && Core()
    }

    lemma EmptyMeansNone()
      requires Core()
      ensures bld.IsEmpty() <==> bld.stateInCh == NO_CHAR
    {
    }

    lemma Controlled()
      requires Core()
      ensures 0 < nblockMAX && (state.InputPhase? ==> !ended)
      ensures ended ==> mode.Idle? || (mode.Finishing? && availInExpect == 0 && bld.IsEmpty())
    {
    }

    /** The input half of the loop: fill the block, and compress it when it is full or the input is at its end. */
    method FillAndCompress(ghost given: seq<Byte>, ghost before: seq<Byte>) returns (progress: bool, more: bool)
      requires Turning() && state.InputPhase? && Took(given, before)
      modifies this`input, this`consumed, this`availInExpect, this`combinedCRC, this`blocks, this`plans, this`state, this`ended, this`pad
      modifies bld, bld.block, bld.inUse, w, zbits
      ensures Turning() && Took(given, before) && |input| <= |old(input)| && (progress <==> |input| < |old(input)|)
      ensures more ==> state.OutputPhase? && (|input| < |old(input)| || (old(input) == [] && bld.IsEmpty() && !mode.Running?))
      ensures !more ==> state.InputPhase? && input == [] && mode.Running?
      ensures ended ==> stateOutPos < w.numZ
    {
      hide Core, Took;
      ghost var was, had := input, consumed;
      TookParts(given, before);
      progress := CopyInput();
      Controlled();
      TookParts(was, had);
      TookMore(given, before, was, had);
      more := true;
      if !mode.Running? && availInExpect == 0 {
        FlushPending();
        WriteBlock(mode.Finishing?);
      } else if bld.nblock >= nblockMAX {
        WriteBlock(false);
      } else {
        assert input == [];
        more := false;
      }
    }

    lemma TookMore(given: seq<Byte>, before: seq<Byte>, was: seq<Byte>, had: seq<Byte>)
      requires |was| <= |given| && was == given[|given| - |was|..] && had == before + given[..|given| - |was|]
      requires Took(was, had)
      ensures Took(given, before)
    {
      var k, m := |given| - |was|, |was| - |input|;
      assert given[..k + m] == given[..k] + was[..m];
      assert before + (given[..k] + was[..m]) == before + given[..k] + was[..m];
    }

    /**
     * The output half of the loop: deliver what there is room for and, once all is delivered, prepare the next block.
     * It stops for lack of room, at the end of the stream, or when everything to be flushed is out.
     */
    method DeliverAndPrepare() returns (progress: bool, stop: bool)
      requires Turning() && state.OutputPhase?
      modifies this`output, this`availOut, this`stateOutPos, this`blockNo, this`state, w`numZ, bld, bld.inUse
      ensures old(output) <= output && (progress <==> |output| > |old(output)|) && |output| - |old(output)| == old(availOut) - availOut
      ensures bld.IsEmpty() == old(bld.IsEmpty())
      ensures if stop then Resting() else Turning() && state.InputPhase?
      ensures state.OutputPhase? ==> w.numZ == old(w.numZ) && |output| - |old(output)| == stateOutPos - old(stateOutPos)
      ensures state.OutputPhase? && stateOutPos < w.numZ ==> availOut == 0
      ensures state.OutputPhase? && stateOutPos >= w.numZ ==> ended && mode.Finishing? && availInExpect == 0 && bld.IsEmpty()
      ensures state.InputPhase? ==> !ended && (stop <==> mode.Flushing? && availInExpect == 0 && bld.IsEmpty())
    {
      hide Core;
      progress := CopyOutput();
      stop := true;
      if stateOutPos < w.numZ { return; }
      Controlled();
      if mode.Finishing? && availInExpect == 0 && bld.IsEmpty() { return; }
      PrepareNewBlock();
      EmptyMeansNone();
      Controlled();
      stop := mode.Flushing? && availInExpect == 0 && bld.IsEmpty();
    }

    /** What is still to be done before the current bytes are out: input, pending run, open block. */
    ghost function Pending(): nat
      reads this`input, this`state, bld`stateInCh, bld`stateInLen
    {
      4 * |input| + (if bld.IsEmpty() then 0 else 2) + (if state.InputPhase? then 1 else 0)
    }

    /** What is written and not yet delivered, in bytes. */
    ghost function Left(): nat
      reads this`stateOutPos, w`numZ
    {
      if stateOutPos < w.numZ then w.numZ - stateOutPos else 0
    }

    /** Less is pending, or as much is pending and less is left to deliver. */
    ghost predicate Nearer(pending: nat, left: nat)
      reads this`input, this`state, this`stateOutPos, bld`stateInCh, bld`stateInLen, w`numZ
    {
      Pending() < pending || (Pending() == pending && Left() < left)
    }

    /** handle_compress. It stops with output waiting only for lack of room, and otherwise for lack of input or because all is done. */
    method HandleCompress() returns (progress: bool)
      requires Valid() && !mode.Idle? && (!mode.Running? ==> availInExpect == |input|)
      modifies this`input, this`consumed, this`availInExpect, this`combinedCRC, this`blocks, this`plans, this`state, this`ended, this`pad
      modifies this`output, this`availOut, this`stateOutPos, this`blockNo, bld, bld.block, bld.inUse, w, zbits
      ensures Resting() && Took(old(input), old(consumed)) && old(output) <= output && (!mode.Running? ==> availInExpect == |input|)
      ensures progress <==> |input| < |old(input)| || |output| > |old(output)|
      ensures |output| - |old(output)| == old(availOut) - availOut
      ensures mode.Finishing? ==> ended || stateOutPos < w.numZ
      ensures mode.Finishing? ==> availOut == 0 || (availInExpect == 0 && bld.IsEmpty() && stateOutPos >= w.numZ)
      ensures mode.Flushing? && availInExpect == 0 && bld.IsEmpty() && stateOutPos >= w.numZ ==> state.InputPhase?
      ensures mode.Flushing? && state.InputPhase? ==> availInExpect == 0 && bld.IsEmpty()
      ensures mode.Running? ==> if state.InputPhase? then input == [] else availOut == 0
      ensures state.OutputPhase? && |output| > |old(output)| ==> Nearer(old(Pending()), old(Left()))
      ensures mode.Finishing? ==> state.OutputPhase?
      ensures state.OutputPhase? && stateOutPos < w.numZ ==> availOut == 0
      ensures ended && stateOutPos >= w.numZ ==> |output| > |old(output)|
    {
      hide Core, Took;
      var progressIn, progressOut := false, false;
      ghost var given, before := input, consumed;
      ghost var first, pending, numZ, pos := true, Pending(), w.numZ, stateOutPos;
      TookNone();
      while true
        invariant Turning() && Took(given, before) && old(output) <= output && |input| <= |given|
        invariant progressIn <==> |input| < |given|
        invariant progressOut <==> |output| > |old(output)|
        invariant |output| - |old(output)| == old(availOut) - availOut
        invariant ended ==> stateOutPos < w.numZ
        invariant if first then Pending() == pending && w.numZ == numZ && stateOutPos == pos && output == old(output)
                  else Pending() < pending && state.OutputPhase?
        decreases |input|, !bld.IsEmpty(), state.InputPhase?
      {
        if state.OutputPhase? {
          var p, stop := DeliverAndPrepare();
          progressOut := progressOut || p;
          if stop { break; }
        }
        var q, more := FillAndCompress(given, before);
        progressIn := progressIn || q;
        if !more { break; }
        first := false;
      }
      progress := progressIn || progressOut;
    }

    /** The output is a stream that decodes to everything that was put in. */
    ghost predicate Complete()
      requires Table(bld.table)
      reads this`output, this`consumed
    {
      forall nums: Numbers :: Decodes(ParseStream(nums, bld.table, BytesToBits(output)), consumed)
    }

    lemma EndsComplete()
      requires Core() && ended && stateOutPos >= w.numZ
      ensures Table(bld.table) && Complete()
    {
      hide BytesToBits, ToBits, StreamBits, ParseStream, Builder.Valid, Data, AllPlanned, Combined;
      assert w.zbits[stateOutPos..w.numZ] == [];
      NoBits();
      assert BytesToBits(output) + [] == BytesToBits(output);
      assert Data(blocks) + bld.Waiting() == Data(blocks) by { EmptyMeansNone(); }
      forall nums: Numbers
        ensures Decodes(ParseStream(nums, bld.table, BytesToBits(output)), consumed)
      {
        StreamRoundTrip(nums, bld.table, plans, blocks, level, ToBits(0, pad));
      }
    }

    lemma TookNone()
      ensures Took(input, consumed)
    {
      assert input[0..] == input && consumed + input[..0] == consumed;
    }

    /** BZ2_bzCompress while flushing. */
    method FlushCall() returns (code: Code)
      requires Valid() && mode.Flushing?
      modifies this, bld, bld.block, bld.inUse, w, zbits
      ensures Valid() && Took(old(input), old(consumed)) && old(output) <= output
      ensures code.SequenceError? || code.FlushOk? || code.RunOk?
      ensures code.SequenceError? <==> old(availInExpect != |input|)
      ensures code.FlushOk? ==> mode.Flushing? && availInExpect == |input| && availOut == 0 && |output| == |old(output)| + old(availOut)
      ensures code.FlushOk? && old(availOut) > 0 ==> Nearer(old(Pending()), old(Left()))
      ensures code.RunOk? ==> mode.Running? && input == [] && bld.IsEmpty() && stateOutPos >= w.numZ
    {
      hide Emission, Accounting, Took;
      TookNone();
      if availInExpect != |input| { return SequenceError; }
      var progress := HandleCompress();
      if availInExpect > 0 || !bld.IsEmpty() || stateOutPos < w.numZ { return FlushOk; }
      mode := Running;
      return RunOk;
    }

    /** BZ2_bzCompress while finishing. */
    method FinishCall() returns (code: Code)
      requires Valid() && mode.Finishing?
      modifies this, bld, bld.block, bld.inUse, w, zbits
      ensures Valid() && Took(old(input), old(consumed)) && old(output) <= output
      ensures code.SequenceError? || code.FinishOk? || code.StreamEnd?
      ensures code.SequenceError? && old(availOut) > 0 ==> old(availInExpect != |input|)
      ensures code.FinishOk? ==> mode.Finishing? && availInExpect == |input| && availOut == 0 && |output| == |old(output)| + old(availOut)
      ensures code.FinishOk? ==> Nearer(old(Pending()), old(Left()))
      ensures code.StreamEnd? ==> mode.Idle? && input == [] && Table(bld.table) && Complete()
    {
      hide Emission, Accounting, Took, Complete;
      TookNone();
      if availInExpect != |input| { return SequenceError; }
      var progress := HandleCompress();
      if !progress { return SequenceError; }
      if availInExpect > 0 || !bld.IsEmpty() || stateOutPos < w.numZ { return FinishOk; }
      EndsComplete();
      mode := Idle;
      return StreamEnd;
    }

    /** A flush or a finish may begin, or has begun and the caller has not changed the input since. */
    ghost predicate Expects(m: Mode)
      reads this`mode, this`availInExpect, this`input
    {
      mode.Running? || (mode == m && availInExpect == |input|)
    }

    lemma TookAll(given: seq<Byte>, before: seq<Byte>)
      requires Took(given, before)
      ensures consumed + input == before + given && before <= consumed
    {
      var k := |given| - |input|;
      Regroup(before, given[..k], given[k..]);
      assert given[..k] + given[k..] == given;
    }

    /** Between calls the caller adds input and makes room. */
    method Offer(more: seq<Byte>, room: nat)
      requires Valid()
      modifies this`input, this`availOut
      ensures Valid() && input == old(input) + more && availOut == room
    {
      hide Shape, Emission, Accounting, Control, Builder.IsEmpty;
      input, availOut := input + more, room;
    }

    /**
     * BZ2_bzCompress. Whatever the caller's sequence of calls, of input and of output room, once the stream
     * end is reported the output decodes to all the input taken; after a completed flush nothing taken is held back.
     * A call that has room for output takes all the input, or fills the room and so comes nearer to the end.
     */
    method BzCompress(action: Action) returns (code: Code)
      requires Valid()
      modifies this, bld, bld.block, bld.inUse, w, zbits
      ensures Valid() && Took(old(input), old(consumed)) && old(output) <= output
      ensures old(mode).Idle? ==> code.SequenceError?
      ensures code.StreamEnd? ==> mode.Idle? && input == [] && Table(bld.table) && Complete()
      ensures code.RunOk? && action.Flush? ==> mode.Running? && input == [] && bld.IsEmpty() && stateOutPos >= w.numZ
      ensures old(mode).Running? && action.Run? && old(availOut) > 0 && old(input) != [] ==>
                code.RunOk? && mode.Running? && (input == [] || Nearer(old(Pending()), old(Left())))
      ensures action.Flush? && old(Expects(Flushing)) && old(availOut) > 0 ==>
                code.RunOk? || (code.FlushOk? && Expects(Flushing) && Nearer(old(Pending()), old(Left())))
      ensures action.Finish? && old(Expects(Finishing)) && old(availOut) > 0 ==>
                code.StreamEnd? || (code.FinishOk? && Expects(Finishing) && Nearer(old(Pending()), old(Left())))
    {
      hide Emission, Accounting, Took, Complete;
      TookNone();
      if mode.Idle? { return SequenceError; }
      if mode.Running? {
        if action == Action.Run {
          var progress := HandleCompress();
          return if progress then RunOk else ParamError;
        }
        if action == Other { return ParamError; }
        availInExpect := |input|;
        mode := if action == Flush then Flushing else Finishing;
      }
      if mode.Flushing? {
        if action != Flush { return SequenceError; }
        code := FlushCall();
      } else {
        if action != Finish { return SequenceError; }
        code := FinishCall();
      }
    }
  }

  lemma BitsDropped(before: seq<bool>, pos: nat, carried: seq<bool>)
    requires |before| >= 8 * pos && exists bytes: seq<bool> :: |bytes| == 8 * pos && before == bytes + carried
    ensures before[8 * pos..] == carried
  {
  }

  lemma {:induction false} ByteInStream(bytes: seq<Byte>, rest: seq<bool>, i: nat)
    requires i < |bytes|
    ensures (BytesToBits(bytes) + rest)[8 * i..] == ToBits(bytes[i], 8) + (BytesToBits(bytes) + rest)[8 * (i + 1)..]
  {
    hide ToBits;
    var s := BytesToBits(bytes) + rest;
    BytesToBitsAppend(bytes[..i], bytes[i..]);
    assert bytes[..i] + bytes[i..] == bytes;
    NextByte(bytes[i..]);
    var a, b, c := BytesToBits(bytes[..i]), ToBits(bytes[i], 8), BytesToBits(bytes[i..][1..]);
    assert s == a + (b + c) + rest;
    assert s[8 * i..] == b + c + rest && s[8 * (i + 1)..] == c + rest;
    assert b + c + rest == b + (c + rest);
  }

  lemma NoBlocks(t: seq<nat>, plans: seq<Plan>, level: nat)
    requires Table(t) && AllPlanned(plans, [], level)
    ensures BlocksBits(t, plans, [], level) == []
  {
  }

  lemma BlockDone(out0: seq<bool>, s1: seq<bool>, head: seq<bool>, before: seq<bool>, bits: seq<bool>)
    requires out0 + s1 == head + before
    ensures out0 + (s1 + bits) == head + (before + bits)
  {
    assert out0 + (s1 + bits) == out0 + s1 + bits;
    assert head + (before + bits) == head + before + bits;
  }

  lemma TailBits(a: seq<bool>, b: seq<bool>, c: seq<bool>, d: seq<bool>)
    ensures a + (b + c + d) == a + b + c + d
  {
  }

  /** After the header step, header and blocks are in the stream. */
  lemma HeaderDone(out0: seq<bool>, s0: seq<bool>, first: bool, head: seq<bool>, before: seq<bool>, s1: seq<bool>)
    requires out0 + s0 == if !first then head + before else []
    requires first ==> before == []
    requires s1 == s0 + (if first then head else [])
    ensures out0 + s1 == head + before
  {
    if first {
      assert out0 == [] && s0 == [];
    }
  }

  lemma TakenIs(bld: Builder, blocks: seq<seq<Byte>>)
    requires bld.Valid()
    ensures bld.nblock <= bld.block.Length && bld.Taken() == Expand(bld.block[..bld.nblock]) + bld.Waiting()
    ensures Data(blocks) + bld.Taken() == Data(blocks + [bld.block[..bld.nblock]]) + bld.Waiting()
  {
    hide Expand;
    DataAppend(blocks, bld.Bytes());
    assert Data(blocks) + (Expand(bld.Bytes()) + bld.Waiting()) == Data(blocks) + Expand(bld.Bytes()) + bld.Waiting();
  }

  lemma NothingTaken(bld: Builder, blocks: seq<seq<Byte>>)
    requires bld.Valid() && bld.nblock == 0
    ensures Data(blocks) + bld.Taken() == Data(blocks) + bld.Waiting()
  {
    assert bld.Bytes() == [];
  }

  lemma WriterParts(w: BitWriter)
    requires w.Valid()
    ensures w.numZ <= w.zbits.Length && |w.Stream()| == 8 * w.numZ + w.bsLive && w.bsLive >= 0
  {
  }

  lemma BuilderParts(bld: Builder)
    requires bld.Valid()
    ensures Table(bld.table) && bld.nblock <= bld.block.Length && bld.inUse.Length == 256 && bld.blockCRC < WORD
    ensures Finalise(bld.blockCRC) == Checksum(bld.table, Expand(bld.Bytes()))
  {
  }
}
