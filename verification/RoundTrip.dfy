/** Decompressing what the compressor wrote. */
module RoundTrip {
  import opened Words
  import opened BitStream
  import opened CanonicalCode
  import opened Crc
  import opened Stream
  import opened Randomise
  import opened Compressor
  import opened Decompressor

  /** The bytes in buffers of the given sizes, in order. */
  method Feed(bytes: seq<Byte>, pieces: nat -> nat) returns (r: BitReader)
    requires forall i :: pieces(i) > 0
    ensures fresh(r) && r.Valid() && r.Rest() == BytesToBits(bytes)
  {
    hide BitReader.Valid, BitReader.Rest, BytesToBits;
    r := new BitReader([]);
    var pos, i := 0, 0;
    while pos < |bytes|
      invariant fresh(r) && r.Valid() && 0 <= pos <= |bytes| && r.Rest() == BytesToBits(bytes[..pos])
    {
      var next := if pos + pieces(i) < |bytes| then pos + pieces(i) else |bytes|;
      r.Supply(bytes[pos..next]);
      BytesToBitsAppend(bytes[..pos], bytes[pos..next]);
      assert bytes[..pos] + bytes[pos..next] == bytes[..next];
      pos, i := next, i + 1;
    }
    assert bytes[..pos] == bytes;
  }

  /**
   * After the stream end, the output, read by either decoder through input and output buffers of any sizes, gives back
   * all the input taken.
   */
  method Recover(es: EState, nums: Numbers, pieces: nat -> nat, small: bool, space: nat -> nat) returns (st: Status, data: seq<Byte>)
    requires Table(es.bld.table) && es.Complete() && forall i :: pieces(i) > 0 && space(i) > 0
    ensures st.Done? && data == es.consumed
  {
    hide ParseStream, BitReader.Valid, BitReader.Rest, BytesToBits;
    var r := Feed(es.output, pieces);
    var magic;
    st, data, magic := Decompress(r, nums, es.bld.table, small, space);
  }

  /** One call of the compressor: more input, room for output, and what to do. */
  datatype Turn = Turn(more: seq<Byte>, room: nat, action: Action)

  /** The input given to some calls. */
  ghost function Given(turns: seq<Turn>): seq<Byte> {
    Joined(seq(|turns|, i requires 0 <= i < |turns| => turns[i].more))
  }

  /**
   * Any sequence of calls, with any input and any room in each, up to the stream end: decompressing the output, in
   * either mode and through buffers of any sizes, gives back exactly the bytes given to those calls.
   */
  method Session(turns: seq<Turn>, level: nat, table: seq<nat>, nums: Numbers, pieces: nat -> nat, small: bool, space: nat -> nat)
    returns (ended: bool, k: nat, data: seq<Byte>)
    requires 1 <= level <= 9 && Table(table) && forall i :: pieces(i) > 0 && space(i) > 0
    ensures ended ==> k <= |turns| && data == Given(turns[..k])
  {
    hide EState.Valid, EState.Complete, EState.Took, EState.Nearer, EState.Expects, EState.Pending, EState.Left, Given, Table;
    var es := new EState(level, table);
    ended, k, data := false, 0, [];
    GivenNone(turns);
    while k < |turns|
      invariant es.Valid() && 0 <= k <= |turns| && es.consumed + es.input == Given(turns[..k]) && es.bld.table == table
      invariant fresh(es) && fresh(es.bld) && fresh(es.bld.block) && fresh(es.bld.inUse) && fresh(es.w) && fresh(es.zbits)
    {
      Regroup(es.consumed, es.input, turns[k].more);
      GivenNext(turns, k);
      es.Offer(turns[k].more, turns[k].room);
      ghost var given, before := es.input, es.consumed;
      var code := es.BzCompress(turns[k].action);
      es.TookAll(given, before);
      k := k + 1;
      if code.StreamEnd? {
        var st;
        st, data := Recover(es, nums, pieces, small, space);
        ended := true;
        NothingAfter(es.consumed);
        return;
      }
    }
  }

  lemma GivenNone(turns: seq<Turn>)
    ensures [] + [] == Given(turns[..0])
  {
  }

  lemma GivenNext(turns: seq<Turn>, k: nat)
    requires k < |turns|
    ensures Given(turns[..k + 1]) == Given(turns[..k]) + turns[k].more
  {
    var before := seq(k, i requires 0 <= i < k => turns[..k][i].more);
    JoinedLast(before, turns[k].more);
    assert seq(k + 1, i requires 0 <= i < k + 1 => turns[..k + 1][i].more) == before + [turns[k].more];
  }

  // ---- a caller that sees its calls through ----

  /** A piece of the input, and whether to flush after it. */
  datatype Part = Part(bytes: seq<Byte>, flush: bool)

  /** The whole input. */
  ghost function Whole(parts: seq<Part>): seq<Byte> {
    Joined(seq(|parts|, i requires 0 <= i < |parts| => parts[i].bytes))
  }

  lemma WholeNext(parts: seq<Part>, k: nat)
    requires k < |parts|
    ensures Whole(parts[..k + 1]) == Whole(parts[..k]) + parts[k].bytes
  {
    var before := seq(k, i requires 0 <= i < k => parts[..k][i].bytes);
    JoinedLast(before, parts[k].bytes);
    assert seq(k + 1, i requires 0 <= i < k + 1 => parts[..k + 1][i].bytes) == before + [parts[k].bytes];
  }

  /** BZ_RUN, with the room of call number `calls` and on, until the input is taken. */
  method RunAll(es: EState, rooms: nat -> nat, calls: nat) returns (n: nat)
    requires es.Valid() && es.mode.Running? && forall i :: rooms(i) > 0
    modifies es, es.bld, es.bld.block, es.bld.inUse, es.w, es.zbits
    ensures es.Valid() && es.mode.Running? && es.input == [] && es.consumed == old(es.consumed) + old(es.input)
  {
    hide EState.Valid, EState.Complete, EState.Took, EState.Left;
    n := calls;
    while es.input != []
      invariant es.Valid() && es.mode.Running? && es.consumed + es.input == old(es.consumed) + old(es.input)
      decreases es.Pending(), es.Left()
    {
      NothingAfter(es.input);
      es.Offer([], rooms(n));
      ghost var given, before := es.input, es.consumed;
      var code := es.BzCompress(Run);
      es.TookAll(given, before);
      n := n + 1;
    }
    NothingAfter(es.consumed);
  }

  /** BZ_FLUSH until it is complete. */
  method FlushAll(es: EState, rooms: nat -> nat, calls: nat) returns (n: nat)
    requires es.Valid() && es.mode.Running? && es.input == [] && forall i :: rooms(i) > 0
    modifies es, es.bld, es.bld.block, es.bld.inUse, es.w, es.zbits
    ensures es.Valid() && es.mode.Running? && es.input == [] && es.consumed == old(es.consumed)
    ensures es.bld.IsEmpty() && es.stateOutPos >= es.w.numZ
  {
    hide EState.Valid, EState.Complete, EState.Took, EState.Pending, EState.Left;
    n := calls;
    NothingAfter(es.consumed);
    while true
      invariant es.Valid() && es.Expects(Flushing) && es.input == [] && es.consumed == old(es.consumed)
      decreases es.Pending(), es.Left()
    {
      es.Offer([], rooms(n));
      ghost var given, before := es.input, es.consumed;
      var code := es.BzCompress(Flush);
      es.TookAll(given, before);
      NoneTaken(es.consumed, es.input, before);
      n := n + 1;
      if code.RunOk? { return; }
    }
  }

  lemma NoneTaken(consumed: seq<Byte>, input: seq<Byte>, before: seq<Byte>)
    requires consumed + input == before + [] && before <= consumed
    ensures input == [] && consumed == before
  {
    assert |consumed| + |input| == |before|;
  }

  /** BZ_FINISH until the stream end. */
  method FinishAll(es: EState, rooms: nat -> nat, calls: nat) returns (n: nat)
    requires es.Valid() && es.mode.Running? && forall i :: rooms(i) > 0
    modifies es, es.bld, es.bld.block, es.bld.inUse, es.w, es.zbits
    ensures es.Valid() && es.input == [] && es.consumed == old(es.consumed) + old(es.input)
    ensures Table(es.bld.table) && es.Complete()
  {
    hide EState.Valid, EState.Complete, EState.Took, EState.Pending, EState.Left;
    n := calls;
    while true
      invariant es.Valid() && es.Expects(Finishing) && es.consumed + es.input == old(es.consumed) + old(es.input)
      decreases es.Pending(), es.Left()
    {
      NothingAfter(es.input);
      es.Offer([], rooms(n));
      ghost var given, before := es.input, es.consumed;
      var code := es.BzCompress(Finish);
      es.TookAll(given, before);
      n := n + 1;
      if code.StreamEnd? {
        NothingAfter(es.consumed);
        return;
      }
    }
  }

  /**
   * The round trip, without conditions: whatever the pieces of input, wherever flushes come, and however much room each
   * call has as long as it has some, every flush and the finish end, and what either decoder reads back is the input.
   */
  method Transfer(parts: seq<Part>, level: nat, table: seq<nat>, rooms: nat -> nat, nums: Numbers, pieces: nat -> nat, small: bool, space: nat -> nat)
    returns (st: Status, data: seq<Byte>)
    requires 1 <= level <= 9 && Table(table) && forall i :: rooms(i) > 0 && pieces(i) > 0 && space(i) > 0
    ensures st.Done? && data == Whole(parts)
  {
    hide EState.Valid, EState.Complete, Whole, Table;
    var es := new EState(level, table);
    var n := 0;
    assert Whole(parts[..0]) == [] by { WholeNone(parts); }
    for k := 0 to |parts|
      invariant es.Valid() && es.mode.Running? && es.input == [] && es.consumed == Whole(parts[..k])
      invariant fresh(es) && fresh(es.bld) && fresh(es.bld.block) && fresh(es.bld.inUse) && fresh(es.w) && fresh(es.zbits)
    {
      WholeNext(parts, k);
      es.Offer(parts[k].bytes, rooms(n));
      n := RunAll(es, rooms, n);
      if parts[k].flush { n := FlushAll(es, rooms, n); }
    }
    assert parts[..|parts|] == parts;
    n := FinishAll(es, rooms, n);
    NothingAfter(es.consumed);
    st, data := Recover(es, nums, pieces, small, space);
  }

  lemma WholeNone(parts: seq<Part>)
    ensures Whole(parts[..0]) == []
  {
  }
}
