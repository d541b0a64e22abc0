/** The order of the client list and the stacking it gives (6wm/stack.c:23-156). */
module WmStack {
  import opened Words
  import opened WmClients

  // ---- moving to the front ----

  function Without(list: seq<Client>, x: Client): seq<Client> {
    if list == [] then [] else if list[0] == x then list[1..] else [list[0]] + Without(list[1..], x)
  }

  function MoveFront(list: seq<Client>, x: Client): seq<Client> {
    if x in list then [x] + Without(list, x) else list
  }

  /** The elements of s moved to the front one after the other. */
  function RaiseAll(list: seq<Client>, s: seq<Client>): seq<Client> {
    if s == [] then list else MoveFront(RaiseAll(list, s[..|s| - 1]), s[|s| - 1])
  }

  ghost function Members(s: seq<Client>): set<Client> {
    set x | x in s
  }

  ghost predicate AllIn(s: seq<Client>, t: seq<Client>) {
    forall i :: 0 <= i < |s| ==> s[i] in t
  }

  function Outside(list: seq<Client>, s: seq<Client>): seq<Client> {
    if list == [] then [] else if list[0] in s then Outside(list[1..], s) else [list[0]] + Outside(list[1..], s)
  }

  function Reversed(s: seq<Client>): (r: seq<Client>)
    ensures |r| == |s| && forall i :: 0 <= i < |s| ==> r[i] == s[|s| - 1 - i]
  {
    seq(|s|, i requires 0 <= i < |s| => s[|s| - 1 - i])
  }

  lemma {:induction false} WithoutSame(list: seq<Client>, x: Client)
    requires Distinct(list)
    ensures Distinct(Without(list, x)) && Members(Without(list, x)) == Members(list) - {x}
    ensures x !in Without(list, x)
  {
    if list != [] {
      var h, t := list[0], list[1..];
      assert forall i :: 0 <= i < |t| ==> t[i] == list[i + 1];
      assert Distinct(t);
      WithoutSame(t, x);
      MembersHead(h, t);
      assert list == [h] + t;
      if h == x {
        assert x !in t && x !in Members(t);
      } else {
        assert h !in Members(t) - {x};
        DistinctCons(h, Without(t, x));
        MembersHead(h, Without(t, x));
      }
    }
  }

  lemma MembersHead(h: Client, t: seq<Client>)
    ensures Members([h] + t) == Members(t) + {h}
  {
  }

  lemma DistinctCons(x: Client, s: seq<Client>)
    requires Distinct(s) && x !in s
    ensures Distinct([x] + s)
  {
  }

  /** Moving to the front keeps exactly the same clients, each once. */
  lemma MoveFrontSame(list: seq<Client>, x: Client)
    requires Distinct(list)
    ensures Distinct(MoveFront(list, x)) && Members(MoveFront(list, x)) == Members(list)
  {
    if x in list {
      WithoutSame(list, x);
      DistinctCons(x, Without(list, x));
      MembersHead(x, Without(list, x));
      assert x in Members(list);
    }
  }

  lemma MembersSame(a: seq<Client>, b: seq<Client>)
    ensures Members(a) == Members(b) <==> forall x :: x in a <==> x in b
  {
    if Members(a) == Members(b) {
      forall x ensures x in a <==> x in b { assert x in Members(a) <==> x in Members(b); }
    }
  }

  lemma MembersWithin(a: seq<Client>, b: seq<Client>)
    requires Members(a) <= Members(b)
    ensures AllIn(a, b) && forall x :: x in a ==> x in b
  {
    forall x | x in a ensures x in b { assert x in Members(a); }
  }

  lemma {:induction false} RaiseAllSame(list: seq<Client>, s: seq<Client>)
    requires Distinct(list)
    ensures Distinct(RaiseAll(list, s)) && Members(RaiseAll(list, s)) == Members(list)
    decreases |s|
  {
    if s != [] {
      RaiseAllSame(list, s[..|s| - 1]);
      MoveFrontSame(RaiseAll(list, s[..|s| - 1]), s[|s| - 1]);
    }
  }

  lemma {:induction false} WithoutAt(list: seq<Client>, i: nat)
    requires i < |list| && forall j :: 0 <= j < i ==> list[j] != list[i]
    ensures Without(list, list[i]) == list[..i] + list[i + 1..]
  {
    if i > 0 {
      var t := list[1..];
      WithoutAt(t, i - 1);
      assert list[..i] + list[i + 1..] == [list[0]] + (t[..i - 1] + t[i..]);
    }
  }

  lemma {:induction false} WithoutAppend(a: seq<Client>, b: seq<Client>, x: Client)
    requires x !in a
    ensures Without(a + b, x) == a + Without(b, x)
  {
    if a == [] {
      assert a + b == b && [] + Without(b, x) == Without(b, x);
    } else {
      assert (a + b)[1..] == a[1..] + b && (a + b)[0] == a[0];
      WithoutAppend(a[1..], b, x);
    }
  }

  lemma WithoutCons(h: Client, rest: seq<Client>, x: Client)
    ensures Without([h] + rest, x) == if h == x then rest else [h] + Without(rest, x)
  {
    assert ([h] + rest)[1..] == rest;
  }

  lemma {:induction false} OutsideMore(list: seq<Client>, s: seq<Client>, x: Client)
    requires Distinct(list) && x in list && x !in s
    ensures x in Outside(list, s) && Outside(list, s + [x]) == Without(Outside(list, s), x)
  {
    hide Without;
    var h, t := list[0], list[1..];
    DistinctTail(list, x);
    assert h in s + [x] <==> h in s || h == x;
    WithoutCons(h, Outside(t, s), x);
    if h == x { OutsideNone(t, s, x); } else { OutsideMore(t, s, x); }
  }

  lemma DistinctTail(list: seq<Client>, x: Client)
    requires Distinct(list) && x in list
    ensures Distinct(list[1..]) && (x in list[1..] <==> x != list[0])
  {
    var t := list[1..];
    assert forall i :: 0 <= i < |t| ==> t[i] == list[i + 1];
    var k :| 0 <= k < |list| && list[k] == x;
    if k > 0 { assert t[k - 1] == x; }
  }

  lemma {:induction false} OutsideNone(list: seq<Client>, s: seq<Client>, x: Client)
    requires x !in list
    ensures Outside(list, s + [x]) == Outside(list, s)
  {
    if list != [] {
      assert list[0] in list;
      assert forall y :: y in list[1..] ==> y in list;
      OutsideNone(list[1..], s, x);
    }
  }

  lemma {:induction false} OutsideNothing(list: seq<Client>)
    ensures Outside(list, []) == list
  {
    if list != [] { OutsideNothing(list[1..]); }
  }

  /** Raising several puts them in front, the last one first, and leaves the others in their order. */
  lemma {:induction false} RaiseAllShape(list: seq<Client>, s: seq<Client>)
    requires Distinct(list) && Distinct(s) && AllIn(s, list)
    ensures RaiseAll(list, s) == Reversed(s) + Outside(list, s)
    decreases |s|
  {
    hide Without, MoveFront, Outside;
    if s == [] {
      OutsideNothing(list);
      assert Reversed(s) + list == list;
    } else {
      var t, x := s[..|s| - 1], s[|s| - 1];
      assert forall i :: 0 <= i < |t| ==> t[i] == s[i];
      assert x !in t && x in list;
      RaiseAllShape(list, t);
      OutsideMore(list, t, x);
      assert t + [x] == s;
      InFront(Reversed(t), Outside(list, t), x);
      assert Reversed(s) == [x] + Reversed(t);
      Regroup([x], Reversed(t), Outside(list, s));
    }
  }

  lemma InFront(a: seq<Client>, b: seq<Client>, x: Client)
    requires x !in a && x in b
    ensures MoveFront(a + b, x) == [x] + (a + Without(b, x))
  {
    WithoutAppend(a, b, x);
  }

  // ---- families ----

  predicate InFamily(x: Client, c: Client, layer: Layer)
    reads x, c`appLeader
  {
    x != c && x.frame != NONE && SameApp(x, c) && x.layer == layer
  }

  /** The framed clients of c's application in a layer, c aside, in list order. */
  function Related(list: seq<Client>, c: Client, layer: Layer): seq<Client>
    reads list, c
  {
    if list == [] then []
    else if InFamily(list[0], c, layer) then [list[0]] + Related(list[1..], c, layer)
    else Related(list[1..], c, layer)
  }

  function Capped(s: seq<Client>): seq<Client> {
    if |s| <= STACK_MAX then s else s[..STACK_MAX]
  }

  lemma {:induction false} RelatedIn(list: seq<Client>, c: Client, layer: Layer)
    requires Distinct(list)
    ensures var r := Related(list, c, layer); Distinct(r) && AllIn(r, list) && forall i :: 0 <= i < |r| ==> InFamily(r[i], c, layer)
    ensures forall i :: 0 <= i < |list| && InFamily(list[i], c, layer) ==> list[i] in Related(list, c, layer)
  {
    hide InFamily;
    if list != [] {
      var h, t := list[0], list[1..];
      assert forall i :: 0 <= i < |t| ==> t[i] == list[i + 1];
      RelatedIn(t, c, layer);
      assert forall i :: 0 < i < |list| ==> list[i] == t[i - 1];
      if InFamily(h, c, layer) {
        NotAgain(h, t, Related(t, c, layer));
        DistinctCons(h, Related(t, c, layer));
      }
    }
  }

  /** The family of c in a layer, by the fields of its clients. */
  lemma RelatedExactly(list: seq<Client>, c: Client, layer: Layer, x: Client)
    requires Distinct(list)
    ensures x in Related(list, c, layer)
            <==> x in list && x != c && x.frame != NONE && x.layer == layer && x.appLeader == c.appLeader && c.appLeader != NONE
  {
    RelatedIn(list, c, layer);
    var r := Related(list, c, layer);
    if x in r {
      var i :| 0 <= i < |r| && r[i] == x;
      assert InFamily(r[i], c, layer);
    }
    if x in list && InFamily(x, c, layer) {
      var i :| 0 <= i < |list| && list[i] == x;
    }
  }

  lemma NotAgain(x: Client, t: seq<Client>, s: seq<Client>)
    requires x !in t && AllIn(s, t)
    ensures x !in s
  {
  }

  /** What stack_raise_family makes of the list, once c is in front. */
  ghost function Raised(front: seq<Client>, c: Client): seq<Client>
    reads front, c
  {
    RaiseAll(RaiseAll(front, Capped(Related(front, c, UtilityLayer))), Capped(Related(front, c, ModalLayer)))
  }

  lemma RaisedSame(front: seq<Client>, c: Client)
    requires Distinct(front)
    ensures Distinct(Raised(front, c)) && Members(Raised(front, c)) == Members(front)
  {
    hide RaiseAll, Related;
    var utils, modals := Capped(Related(front, c, UtilityLayer)), Capped(Related(front, c, ModalLayer));
    RaiseAllSame(front, utils);
    RaiseAllSame(RaiseAll(front, utils), modals);
  }

  /** The family in front: its modals, then its utility windows, then the client itself, then all other clients in their old order. */
  lemma RaisedShape(list: seq<Client>, c: Client)
    requires Distinct([c] + list)
    ensures var utils, modals := Capped(Related([c] + list, c, UtilityLayer)), Capped(Related([c] + list, c, ModalLayer));
            Raised([c] + list, c) == Reversed(modals) + (Reversed(utils) + ([c] + Outside(Outside(list, utils), modals)))
  {
    hide RaiseAll, Related, InFamily;
    var front := [c] + list;
    var utils, modals := Capped(Related(front, c, UtilityLayer)), Capped(Related(front, c, ModalLayer));
    RelatedIn(front, c, UtilityLayer);
    RelatedIn(front, c, ModalLayer);
    RaiseAllShape(front, utils);
    RaiseAllSame(front, utils);
    Still(modals, front, RaiseAll(front, utils));
    RaiseAllShape(RaiseAll(front, utils), modals);
    Elsewhere(utils, modals, c);
    OutsideAll(Reversed(utils), Outside(front, utils), modals);
    OutsideHead(c, list, utils);
    OutsideHead(c, Outside(list, utils), modals);
  }

  lemma Still(s: seq<Client>, a: seq<Client>, b: seq<Client>)
    requires AllIn(s, a) && Members(b) == Members(a)
    ensures AllIn(s, b)
  {
    forall i | 0 <= i < |s| ensures s[i] in b { assert s[i] in Members(a); }
  }

  /** Layers and the client itself are apart. */
  lemma Elsewhere(utils: seq<Client>, modals: seq<Client>, c: Client)
    requires forall i :: 0 <= i < |utils| ==> InFamily(utils[i], c, UtilityLayer)
    requires forall i :: 0 <= i < |modals| ==> InFamily(modals[i], c, ModalLayer)
    ensures c !in utils && c !in modals && forall i :: 0 <= i < |utils| ==> Reversed(utils)[i] !in modals
  {
  }

  lemma OutsideHead(c: Client, list: seq<Client>, s: seq<Client>)
    requires c !in s
    ensures Outside([c] + list, s) == [c] + Outside(list, s)
  {
    assert ([c] + list)[1..] == list;
  }

  lemma {:induction false} OutsideAll(a: seq<Client>, b: seq<Client>, s: seq<Client>)
    requires forall i :: 0 <= i < |a| ==> a[i] !in s
    ensures Outside(a + b, s) == a + Outside(b, s)
  {
    if a == [] {
      assert a + b == b && [] + Outside(b, s) == Outside(b, s);
    } else {
      assert (a + b)[1..] == a[1..] + b && (a + b)[0] == a[0];
      OutsideAll(a[1..], b, s);
    }
  }

  // ---- stack_restack ----

  predicate Stacked(x: Client, layer: Layer)
    reads x`frame, x`layer
  {
    x.layer == layer && x.frame != NONE
  }

  /** The frames of a layer, bottom first: the list from its end. */
  ghost function FramesUp(list: seq<Client>, layer: Layer): seq<Window>
    reads list
  {
    if list == [] then []
    else
      var x := list[|list| - 1];
      if Stacked(x, layer) then [x.frame] + FramesUp(list[..|list| - 1], layer) else FramesUp(list[..|list| - 1], layer)
  }

  lemma FramesUpNext(list: seq<Client>, layer: Layer, k: nat)
    requires k < |list|
    ensures FramesUp(list[..k + 1], layer)
            == if Stacked(list[k], layer) then [list[k].frame] + FramesUp(list[..k], layer) else FramesUp(list[..k], layer)
  {
    assert list[..k + 1][..k] == list[..k];
  }

  lemma NoFrames(list: seq<Client>, layer: Layer)
    requires list == []
    ensures FramesUp(list, layer) == []
  {
  }

  lemma {:induction false} FramesUpCount(list: seq<Client>, layer: Layer, k: nat)
    requires k <= |list|
    ensures |FramesUp(list[..k], layer)| <= |FramesUp(list, layer)|
    decreases |list| - k
  {
    if k < |list| {
      FramesUpCount(list, layer, k + 1);
      FramesUpNext(list, layer, k);
    } else {
      assert list[..k] == list;
    }
  }

  const LAYERS: seq<Layer> := [DocumentLayer, UtilityLayer, ModalLayer]

  /** Whole layers from the bottom up, as long as they fit. */
  ghost function Stacking(list: seq<Client>, from: nat, below: seq<Window>): seq<Window>
    requires from <= 3
    reads list
    decreases 3 - from
  {
    if from == 3 then below
    else
      var frames := FramesUp(list, LAYERS[from]);
      if |below| + |frames| > STACK_MAX then below else Stacking(list, from + 1, below + frames)
  }

  method CountLayer(list: seq<Client>, layer: Layer) returns (n: nat)
    ensures n == |FramesUp(list, layer)|
  {
    n := 0;
    for k := 0 to |list|
      invariant n == |FramesUp(list[..k], layer)|
    {
      FramesUpNext(list, layer, k);
      if Stacked(list[k], layer) { n := n + 1; }
    }
    assert list[..|list|] == list;
  }

  /** One layer goes into the array behind what is there: the head of the list last. */
  method FillLayer(list: seq<Client>, layer: Layer, wins: array<Window>, start: nat, n: nat)
    requires n == |FramesUp(list, layer)| && start + n <= wins.Length
    modifies wins
    ensures wins[..][..start] == old(wins[..][..start]) && wins[..][start..start + n] == FramesUp(list, layer)
  {
    hide Stacked, FramesUp;
    NoFrames(list[..0], layer);
    var pos: int := start + n - 1;
    for k := 0 to |list|
      invariant start - 1 <= pos && pos + 1 + |FramesUp(list[..k], layer)| == start + n
      invariant wins[..][..start] == old(wins[..][..start]) && wins[..][pos + 1..start + n] == FramesUp(list[..k], layer)
    {
      FramesUpNext(list, layer, k);
      FramesUpCount(list, layer, k + 1);
      if Stacked(list[k], layer) {
        ghost var was := wins[..];
        OneMore(was, start, pos, start + n, list[k].frame);
        wins[pos] := list[k].frame;
        assert wins[..] == was[pos := list[k].frame];
        pos := pos - 1;
      }
    }
    assert list[..|list|] == list;
  }

  lemma OneMore(wins: seq<Window>, start: nat, pos: nat, end: nat, w: Window)
    requires start <= pos < end <= |wins|
    ensures wins[pos := w][pos..end] == [w] + wins[pos + 1..end] && wins[pos := w][..start] == wins[..start]
  {
  }

  method Restack(list: seq<Client>) returns (stack: seq<Window>)
    ensures stack == Stacking(list, 0, []) && |stack| <= STACK_MAX
  {
    var wins := new Window[STACK_MAX];
    var n: nat, l: nat := 0, 0;
    while l < 3
      invariant 0 <= l <= 3 && 0 <= n <= STACK_MAX && Stacking(list, 0, []) == Stacking(list, l, wins[..n])
      decreases 3 - l
    {
      var layerN := CountLayer(list, LAYERS[l]);
      if n + layerN > STACK_MAX { break; }
      ghost var below := wins[..n];
      FillLayer(list, LAYERS[l], wins, n, layerN);
      assert wins[..n + layerN] == wins[..][..n] + wins[..][n..n + layerN];
      n, l := n + layerN, l + 1;
    }
    stack := wins[..n];
  }

  /** With at most 256 frames in all, every layer is stacked, in order. */
  lemma AllStacked(list: seq<Client>)
    requires |FramesUp(list, DocumentLayer)| + |FramesUp(list, UtilityLayer)| + |FramesUp(list, ModalLayer)| <= STACK_MAX
    ensures Stacking(list, 0, []) == FramesUp(list, DocumentLayer) + FramesUp(list, UtilityLayer) + FramesUp(list, ModalLayer)
  {
    var d, u, m := FramesUp(list, DocumentLayer), FramesUp(list, UtilityLayer), FramesUp(list, ModalLayer);
    assert Stacking(list, 3, d + u + m) == d + u + m;
    assert Stacking(list, 2, d + u) == d + u + m;
    assert Stacking(list, 1, d) == d + u + m;
    assert [] + d == d;
  }

  lemma {:induction false} FrameAt(list: seq<Client>, layer: Layer, x: Client) returns (i: nat)
    requires x in list && Stacked(x, layer)
    ensures i < |FramesUp(list, layer)| && FramesUp(list, layer)[i] == x.frame
    decreases |list|
  {
    var t, last := list[..|list| - 1], list[|list| - 1];
    if last == x {
      i := 0;
    } else {
      assert x in t;
      i := FrameAt(t, layer, x);
      if Stacked(last, layer) { i := i + 1; }
    }
  }

  /** How high a role is stacked. */
  ghost function Height(role: Role): nat {
    match role
    case Modal => 2
    case Utility => 1
    case _ => 0
  }

  /** Modals are stacked above utility windows, and those above documents and dialogs. */
  lemma StackedByRole(list: seq<Client>, x: Client, y: Client) returns (i: nat, j: nat)
    requires |FramesUp(list, DocumentLayer)| + |FramesUp(list, UtilityLayer)| + |FramesUp(list, ModalLayer)| <= STACK_MAX
    requires x in list && y in list && x.frame != NONE && y.frame != NONE && x.layer == LayerOf(x.role) && y.layer == LayerOf(y.role)
    requires Height(x.role) > Height(y.role)
    ensures var stack := Stacking(list, 0, []); i < j < |stack| && stack[i] == y.frame && stack[j] == x.frame
  {
    hide FramesUp, Stacking;
    AllStacked(list);
    var d, u := |FramesUp(list, DocumentLayer)|, |FramesUp(list, UtilityLayer)|;
    i := FrameAt(list, y.layer, y);
    j := FrameAt(list, x.layer, x);
    if y.layer == UtilityLayer { i := d + i; }
    j := if x.layer == ModalLayer then d + u + j else d + j;
  }

  /** The topmost frame of a layer belongs to the first client of that layer in the list. */
  lemma {:induction false} TopOfLayer(list: seq<Client>, layer: Layer, i: nat)
    requires i < |list| && Stacked(list[i], layer) && forall j :: 0 <= j < i ==> !Stacked(list[j], layer)
    ensures var up := FramesUp(list, layer); up != [] && up[|up| - 1] == list[i].frame
    decreases |list|
  {
    var t := list[..|list| - 1];
    if i < |t| {
      assert t[i] == list[i] && forall j :: 0 <= j < i ==> t[j] == list[j];
      TopOfLayer(t, layer, i);
    } else {
      NoneStacked(t, layer);
    }
  }

  lemma {:induction false} NoneStacked(list: seq<Client>, layer: Layer)
    requires forall j :: 0 <= j < |list| ==> !Stacked(list[j], layer)
    ensures FramesUp(list, layer) == []
  {
    if list != [] { NoneStacked(list[..|list| - 1], layer); }
  }

  /** A raised document window is the topmost of all document windows. */
  lemma RaisedOnTop(list: seq<Client>, c: Client)
    requires Distinct([c] + list) && Stacked(c, DocumentLayer)
    ensures var up := FramesUp(Raised([c] + list, c), DocumentLayer); up != [] && up[|up| - 1] == c.frame
  {
    hide Related, Raised;
    var front := [c] + list;
    var utils, modals := Capped(Related(front, c, UtilityLayer)), Capped(Related(front, c, ModalLayer));
    RelatedIn(front, c, UtilityLayer);
    RelatedIn(front, c, ModalLayer);
    RaisedShape(list, c);
    var raised, i := Raised(front, c), |modals| + |utils|;
    assert raised[i] == c;
    forall j | 0 <= j < i ensures !Stacked(raised[j], DocumentLayer) {
      if j < |modals| { assert raised[j] == Reversed(modals)[j]; } else { assert raised[j] == Reversed(utils)[j - |modals|]; }
    }
    TopOfLayer(raised, DocumentLayer, i);
  }
}
