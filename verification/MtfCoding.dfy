/** Move-to-front values with zero runs in bijective base 2 (libc/compress.c:118-231, libc/decompress.c:378-492). */
module MtfCoding {
  import opened Words
  import opened MoveToFront

  const RUNA := 0
  const RUNB := 1
  const RUN_LIMIT := 2 * 1024 * 1024

  datatype Option<+T> = None | Some(value: T)

  // ---- run lengths ----

  /** A run of z zeros, least significant digit first; digit RUNA counts one unit, RUNB two. */
  function RunDigits(z: nat): (d: seq<int>)
    ensures forall i :: 0 <= i < |d| ==> d[i] == RUNA || d[i] == RUNB
  {
    if z == 0 then [] else [(z - 1) % 2] + RunDigits((z - 1) / 2)
  }

  lemma {:induction false} RunDigitsShort(z: nat)
    ensures |RunDigits(z)| <= z && Pow2(|RunDigits(z)|) <= z + 1
  {
    if z > 0 { RunDigitsShort((z - 1) / 2); }
  }

  /** The length that digits stand for: digit 0 counts its place once, digit 1 twice. */
  ghost function RunValue(d: seq<int>): int {
    if d == [] then 0 else d[0] + 1 + 2 * RunValue(d[1..])
  }

  ghost predicate Digits(d: seq<int>) {
    forall i :: 0 <= i < |d| ==> d[i] == 0 || d[i] == 1
  }

  /** Every length has exactly one sequence of digits. */
  lemma {:induction false} RunLaw(d: seq<int>, z: nat)
    requires Digits(d)
    ensures RunValue(d) == z <==> d == RunDigits(z)
    decreases z, |d|
  {
    var e := RunDigits(z);
    if d == [] {
      if z > 0 { assert e != []; }
    } else {
      RunPositive(d[1..]);
      if z > 0 {
        assert e[0] == (z - 1) % 2 && e[1..] == RunDigits((z - 1) / 2);
        RunLaw(d[1..], (z - 1) / 2);
        assert d == [d[0]] + d[1..] && e == [e[0]] + e[1..];
      }
    }
  }

  lemma {:induction false} RunPositive(d: seq<int>)
    requires Digits(d)
    ensures RunValue(d) >= 0
  {
    if d != [] { RunPositive(d[1..]); }
  }

  // ---- the encoder's symbol sequence ----

  /** What the encoder writes for the column `col`, given its list and z front hits still pending. */
  function Symbols(list: seq<int>, col: seq<int>, z: nat, eob: int): seq<int>
    requires list != [] && forall x :: x in col ==> x in list
    decreases |col|
  {
    if col == [] then RunDigits(z) + [eob]
    else if list[0] == col[0] then Symbols(list, col[1..], z + 1, eob)
    else
      var j := IndexOf(list, col[0]);
      MovedKeeps(list, j);
      RunDigits(z) + [j + 1] + Symbols(MovedToFront(list, j), col[1..], 0, eob)
  }

  lemma MovedKeeps(list: seq<int>, j: nat)
    requires j < |list|
    ensures forall x :: x in list ==> x in MovedToFront(list, j)
  {
    forall x | x in list
      ensures x in MovedToFront(list, j)
    {
      var i :| 0 <= i < |list| && list[i] == x;
      assert MovedToFront(list, j)[if i < j then i + 1 else if i == j then 0 else i] == x;
    }
  }

  // ---- the decoder on a symbol sequence ----

  /**
   * The decoding loop: `acc` and `unit` are the run being accumulated (es + 1 and N), `room` the
   * free cells of the block. None is the source's data-error exit, or the end of the symbols before EOB.
   */
  function Undo(list: seq<int>, v: seq<int>, eob: int, acc: nat, unit: nat, room: nat): Option<seq<int>>
    requires list != []
    decreases |v|
  {
    if v == [] then None
    else if v[0] == RUNA || v[0] == RUNB then
      if unit >= RUN_LIMIT then None
      else Undo(list, v[1..], eob, acc + (v[0] + 1) * unit, 2 * unit, room)
    else if acc > room then None
    else if v[0] == eob then Some(Repeat(list[0], acc))
    else if acc == room || !(1 <= v[0] <= |list|) then None
    else
      var nn := v[0] - 1;
      match Undo(MovedToFront(list, nn), v[1..], eob, 0, 1, room - acc - 1)
      case None => None
      case Some(rest) => Some(Repeat(list[0], acc) + [list[nn]] + rest)
  }

  /** Reading back the digits of a run adds its length, in the current unit. */
  lemma {:induction false} RunRead(list: seq<int>, z: nat, rest: seq<int>, eob: int, acc: nat, unit: nat, room: nat)
    returns (u: nat)
    requires list != [] && unit > 0 && unit * (z + 1) < RUN_LIMIT
    ensures Undo(list, RunDigits(z) + rest, eob, acc, unit, room) == Undo(list, rest, eob, acc + unit * z, u, room)
    decreases z
  {
    if z == 0 {
      assert RunDigits(z) + rest == rest;
      u := unit;
    } else {
      var d, h := (z - 1) % 2, (z - 1) / 2;
      assert z == 2 * h + d + 1;
      var v := RunDigits(z) + rest;
      assert v[0] == d && v[1..] == RunDigits(h) + rest;
      RunUnits(unit, h, d, z);
      u := RunRead(list, h, rest, eob, acc + (d + 1) * unit, 2 * unit, room);
    }
  }

  lemma RunUnits(unit: nat, h: nat, d: nat, z: nat)
    requires z == 2 * h + d + 1 && unit > 0
    ensures 2 * unit * (h + 1) <= unit * (z + 1) && unit <= unit * (z + 1)
    ensures (d + 1) * unit + 2 * unit * h == unit * z
  {
    assert unit * (z + 1) == 2 * unit * (h + 1) + d * unit;
    assert unit * z == 2 * unit * h + (d + 1) * unit;
  }

  /**
   * The decoder inverts the encoder: for every column over the list, the symbols written (with z
   * hits pending) are undone to the pending hits and the column. `tail` is what the decoder's
   * 256-entry list holds beyond the symbols in use.
   */
  lemma {:induction false} SymbolsRoundTrip(list: seq<int>, tail: seq<int>, col: seq<int>, z: nat, eob: int, room: nat)
    requires list != [] && (forall x :: x in col ==> x in list) && eob == |list| + 1
    requires z + |col| <= room < RUN_LIMIT - 1
    ensures Undo(list + tail, Symbols(list, col, z, eob), eob, 0, 1, room) == Some(Repeat(list[0], z) + col)
    decreases |col|
  {
    hide Undo, Repeat, MovedToFront, RunDigits, IndexOf;
    var full := list + tail;
    if col == [] {
      UndoEnd(full, eob, z, room);
      assert Repeat(list[0], z) + col == Repeat(list[0], z);
    } else {
      var rest := col[1..];
      assert col == [col[0]] + rest;
      if list[0] == col[0] {
        SymbolsRoundTrip(list, tail, rest, z + 1, eob, room);
        RepeatMore(list[0], z, rest);
      } else {
        var j := IndexOf(list, col[0]);
        MovedKeeps(list, j);
        var moved := MovedToFront(list, j);
        SymbolsRoundTrip(moved, tail, rest, 0, eob, room - z - 1);
        MovedPrefix(list, tail, j);
        UndoMoved(full, j, Symbols(moved, rest, 0, eob), eob, z, room, rest);
      }
    }
  }

  lemma RepeatMore(x: int, z: nat, rest: seq<int>)
    ensures Repeat(x, z + 1) + rest == Repeat(x, z) + ([x] + rest)
  {
  }

  lemma MovedPrefix(list: seq<int>, tail: seq<int>, j: nat)
    requires j < |list|
    ensures MovedToFront(list + tail, j) == MovedToFront(list, j) + tail
    ensures (list + tail)[0] == list[0] && (list + tail)[j] == list[j]
  {
  }

  lemma UndoEnd(list: seq<int>, eob: int, z: nat, room: nat)
    requires list != [] && eob > 1 && z <= room < RUN_LIMIT - 1
    ensures Undo(list, RunDigits(z) + [eob], eob, 0, 1, room) == Some(Repeat(list[0], z))
  {
    var u := RunRead(list, z, [eob], eob, 0, 1, room);
  }

  /** A coded run followed by the symbol of entry j. */
  lemma UndoMoved(list: seq<int>, j: nat, rest: seq<int>, eob: int, z: nat, room: nat, out: seq<int>)
    requires 0 < j < |list| && eob != j + 1 && z < room < RUN_LIMIT - 1
    requires Undo(MovedToFront(list, j), rest, eob, 0, 1, room - z - 1) == Some(Repeat(list[j], 0) + out)
    ensures Undo(list, RunDigits(z) + [j + 1] + rest, eob, 0, 1, room) == Some(Repeat(list[0], z) + ([list[j]] + out))
  {
    var v := [j + 1] + rest;
    assert RunDigits(z) + [j + 1] + rest == RunDigits(z) + v;
    assert v[0] == j + 1 && v[1..] == rest;
    var u := RunRead(list, z, v, eob, 0, 1, room);
    assert Repeat(list[j], 0) + out == out;
    assert Repeat(list[0], z) + [list[j]] + out == Repeat(list[0], z) + ([list[j]] + out);
  }

  /** There are never more symbols than column entries, plus EOB. */
  lemma {:induction false} SymbolsFit(list: seq<int>, col: seq<int>, z: nat, eob: int)
    requires list != [] && (forall x :: x in col ==> x in list) && eob == |list| + 1
    ensures |Symbols(list, col, z, eob)| <= z + |col| + 1
    ensures forall s :: s in Symbols(list, col, z, eob) ==> 0 <= s <= eob
    decreases |col|
  {
    RunDigitsShort(z);
    if col != [] {
      if list[0] == col[0] {
        SymbolsFit(list, col[1..], z + 1, eob);
      } else {
        var j := IndexOf(list, col[0]);
        MovedKeeps(list, j);
        SymbolsFit(MovedToFront(list, j), col[1..], 0, eob);
      }
    }
  }
}
