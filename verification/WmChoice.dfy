/** Which client is found, which gets the focus, and when it can be left blocked (6wm/client.c:203-213, 6wm/focus.c:50-99, 159-227). */
module WmChoice {
  import opened Words
  import opened WmClients
  import opened WmStack

  /** The first client with this window or frame. */
  function Found(list: seq<Client>, win: Window): (c: Client?)
    reads list`frame
    ensures c != null ==> c in list && (c.win == win || c.frame == win)
    ensures c == null ==> forall x :: x in list ==> x.win != win && x.frame != win
  {
    if list == [] then null
    else if list[0].win == win || list[0].frame == win then list[0]
    else
      assert list == [list[0]] + list[1..];
      Found(list[1..], win)
  }

  /** The first framed client of a layer. */
  function Topmost(list: seq<Client>, layer: Layer): (c: Client?)
    reads list`frame, list`layer
    ensures c != null ==> c in list && Stacked(c, layer)
    ensures c == null ==> forall x :: x in list ==> !Stacked(x, layer)
  {
    if list == [] then null
    else if Stacked(list[0], layer) then list[0]
    else
      assert list == [list[0]] + list[1..];
      Topmost(list[1..], layer)
  }

  lemma {:induction false} FoundAt(list: seq<Client>, win: Window, i: nat)
    requires i < |list| && (list[i].win == win || list[i].frame == win)
    requires forall j :: 0 <= j < i ==> list[j].win != win && list[j].frame != win
    ensures Found(list, win) == list[i]
  {
    if i > 0 { FoundAt(list[1..], win, i - 1); }
  }

  lemma {:induction false} TopmostAt(list: seq<Client>, layer: Layer, i: nat)
    requires i < |list| && Stacked(list[i], layer) && forall j :: 0 <= j < i ==> !Stacked(list[j], layer)
    ensures Topmost(list, layer) == list[i]
  {
    if i > 0 { TopmostAt(list[1..], layer, i - 1); }
  }

  /** A modal before a utility, a utility before a document window, and of each the first. */
  function Preferred(list: seq<Client>): Client?
    reads list`frame, list`layer
  {
    var modal, utility := Topmost(list, ModalLayer), Topmost(list, UtilityLayer);
    if modal != null then modal else if utility != null then utility else Topmost(list, DocumentLayer)
  }

  /** Who is to have the focus when it is lost: the preferred client, or the owner in another application of a preferred modal. */
  ghost function Heir(list: seq<Client>): (c: Client?)
    reads list`frame, list`layer, list`role, list`transientFor, list`appLeader
    ensures c != null ==> c in list
  {
    var best := Preferred(list);
    if best != null && best.role == Modal && best.transientFor != NONE then
      var owner := Found(list, best.transientFor);
      if owner != null && !SameApp(best, owner) then owner else best
    else best
  }

  /** The focus asked for c goes to r: to c, or to the first of the strongest that block c. */
  ghost predicate Focuses(list: seq<Client>, c: Client, r: Client)
    reads list`role, list`frame, list`ownerScope, list`transientFor, list`appLeader, c`appLeader
    reads r`role, r`frame, r`ownerScope, r`transientFor, r`appLeader
  {
    if Blocked(list, c) then Claims(list, c, r) else r == c
  }

  /** The focus once it is lost: the heir, sent on twice. */
  ghost predicate Reverts(list: seq<Client>, r: Client?)
    reads list, r
  {
    var heir := Heir(list);
    if heir == null then r == null
    else r != null && exists m :: m in list && Focuses(list, heir, m) && Focuses(list, m, r)
  }

  /** Nobody who can be sent the focus in place of another is blocked in turn. */
  ghost predicate Settled(list: seq<Client>)
    reads list
  {
    forall c, m :: c in list && m in list && Claims(list, c, m) ==> !Blocked(list, m)
  }

  ghost predicate AlwaysFree(list: seq<Client>)
    reads list
  {
    forall c, r :: c in list && r in list && Focuses(list, c, r) ==> !Blocked(list, r)
  }

  /** Setting the focus leaves it with a client that nobody blocks, whichever is asked for, exactly when the list is settled. */
  lemma FreeExactlySettled(list: seq<Client>)
    ensures AlwaysFree(list) <==> Settled(list)
  {
    hide Blocked, Claims;
    if AlwaysFree(list) {
      forall c, m | c in list && m in list && Claims(list, c, m) ensures !Blocked(list, m) {
        ClaimBlocks(list, c, m);
        assert Focuses(list, c, m);
      }
    }
    if Settled(list) {
      forall c, r | c in list && r in list && Focuses(list, c, r) ensures !Blocked(list, r) {
        if Blocked(list, c) { assert Claims(list, c, r); }
      }
    }
  }

  // ---- the same by the fields of the clients ----

  /** A framed modal other than c. */
  predicate Standing(m: Client, c: Client)
    reads m`role, m`frame
  {
    m != c && m.role == Modal && m.frame != NONE
  }

  predicate Owned(m: Client, c: Client)
    reads m`transientFor
  {
    m.transientFor != NONE && m.transientFor == c.win
  }

  /** A modal for this window only. */
  predicate Personal(m: Client, c: Client)
    reads m`role, m`frame, m`transientFor, m`ownerScope
  {
    Standing(m, c) && m.ownerScope && Owned(m, c)
  }

  /** A modal owned by this window, but for its whole application. */
  predicate Attached(m: Client, c: Client)
    reads m`role, m`frame, m`transientFor, m`ownerScope
  {
    Standing(m, c) && !m.ownerScope && Owned(m, c)
  }

  /** A modal of the application. */
  predicate Common(m: Client, c: Client)
    reads m`role, m`frame, m`transientFor, m`ownerScope, m`appLeader, c`appLeader
  {
    Standing(m, c) && !m.ownerScope && !Owned(m, c) && SameApp(m, c)
  }

  lemma ByFields(m: Client, c: Client)
    ensures Personal(m, c) <==> Rank(m, c) == 3
    ensures Attached(m, c) <==> Rank(m, c) == 2
    ensures Common(m, c) <==> Rank(m, c) == 1
    ensures Rank(m, c) <= 3
  {
  }

  /** Entry i is who gets the focus in place of c: the first personal modal, else the first attached one, else the first common one. */
  ghost predicate Chosen(list: seq<Client>, i: nat, c: Client)
    requires i < |list|
    reads list`role, list`frame, list`ownerScope, list`transientFor, list`appLeader, c`appLeader
  {
    if Personal(list[i], c) then forall j :: 0 <= j < i ==> !Personal(list[j], c)
    else if Attached(list[i], c) then
      (forall j :: 0 <= j < |list| ==> !Personal(list[j], c)) && forall j :: 0 <= j < i ==> !Attached(list[j], c)
    else
      && Common(list[i], c) && (forall j :: 0 <= j < |list| ==> !Personal(list[j], c) && !Attached(list[j], c))
      && forall j :: 0 <= j < i ==> !Common(list[j], c)
  }

  /** m stands over c. */
  predicate Over(m: Client, c: Client)
    reads m`role, m`frame, m`transientFor, m`ownerScope, m`appLeader, c`appLeader
  {
    Standing(m, c) && (Owned(m, c) || (!m.ownerScope && SameApp(m, c)))
  }

  lemma OverRanks(m: Client, c: Client)
    ensures Over(m, c) <==> Rank(m, c) > 0
  {
  }

  lemma ChosenClaims(list: seq<Client>, i: nat, c: Client)
    requires i < |list| && Chosen(list, i, c)
    ensures Claims(list, c, list[i])
  {
    hide Rank, Personal, Attached, Common;
    forall j | 0 <= j < |list| ensures Rank(list[j], c) <= Rank(list[i], c) && (j < i ==> Rank(list[j], c) < Rank(list[i], c)) {
      ByFields(list[i], c);
      ByFields(list[j], c);
    }
    ByFields(list[i], c);
  }

  lemma ClaimsChosen(list: seq<Client>, c: Client, m: Client) returns (i: nat)
    requires Claims(list, c, m)
    ensures i < |list| && list[i] == m && Chosen(list, i, c)
  {
    hide Rank, Personal, Attached, Common;
    i :| 0 <= i < |list| && list[i] == m && forall j :: 0 <= j < i ==> Rank(list[j], c) < Rank(m, c);
    ByFields(m, c);
    forall j | 0 <= j < |list|
      ensures Rank(list[j], c) < 3 ==> !Personal(list[j], c)
      ensures Rank(list[j], c) < 2 ==> !Attached(list[j], c)
      ensures Rank(list[j], c) < 1 ==> !Common(list[j], c)
      ensures Rank(list[j], c) <= Rank(m, c)
    {
      ByFields(list[j], c);
      assert list[j] in list;
    }
  }

  /** Nobody stands over a modal that is chosen in place of some client. */
  ghost predicate Orderly(list: seq<Client>)
    reads list
  {
    forall c, i, k :: c in list && 0 <= i < |list| && 0 <= k < |list| && Chosen(list, i, c) ==> !Over(list[k], list[i])
  }

  /**
   * Setting the focus leaves it with a client that nobody blocks, whichever is asked for, exactly when nobody stands over a
   * modal that is chosen in place of another client. Roles, frames, owners, scopes and applications decide that.
   */
  lemma FreeExactly(list: seq<Client>)
    ensures AlwaysFree(list) <==> Orderly(list)
  {
    hide AlwaysFree, Chosen, Over, Claims, Blocked;
    FreeExactlySettled(list);
    if Settled(list) {
      forall c, i, k | c in list && 0 <= i < |list| && 0 <= k < |list| && Chosen(list, i, c) ensures !Over(list[k], list[i]) {
        ChosenClaims(list, i, c);
        assert list[i] in list && !Blocked(list, list[i]);
        NotOver(list, k, list[i]);
      }
    }
    if Orderly(list) {
      forall c, m | c in list && m in list && Claims(list, c, m) ensures !Blocked(list, m) {
        var i := ClaimsChosen(list, c, m);
        forall k | 0 <= k < |list| ensures !Over(list[k], m) { assert !Over(list[k], list[i]); }
        NoneOver(list, m);
      }
    }
  }

  lemma NotOver(list: seq<Client>, k: nat, m: Client)
    requires k < |list| && !Blocked(list, m)
    ensures !Over(list[k], m)
  {
    OverRanks(list[k], m);
  }

  lemma NoneOver(list: seq<Client>, m: Client)
    requires forall k :: 0 <= k < |list| ==> !Over(list[k], m)
    ensures !Blocked(list, m)
  {
    hide Over, Rank;
    forall x | x in list ensures Rank(x, m) <= 0 {
      var k :| 0 <= k < |list| && list[k] == x;
      OverRanks(list[k], m);
    }
  }

  lemma ClaimBlocks(list: seq<Client>, c: Client, m: Client)
    requires Claims(list, c, m)
    ensures Blocked(list, c)
  {
  }

  /** No modal blocks another. */
  ghost predicate Peaceful(list: seq<Client>)
    reads list
  {
    forall x :: x in list && x.role == Modal ==> !Blocked(list, x)
  }

  /** If no modal blocks another, the list is settled. */
  lemma PeacefulSettled(list: seq<Client>)
    requires Peaceful(list)
    ensures Settled(list)
  {
    hide Blocked;
    forall c, m | c in list && m in list && Claims(list, c, m) ensures !Blocked(list, m) {
      assert Rank(m, c) > 0 && m.role == Modal;
    }
  }
}
