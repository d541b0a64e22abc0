/** The window manager's clients, who blocks whom, and the stacking order (6wm/client.c:94-103, 203-213, 368-379; 6wm/focus.c:50-99; 6wm/stack.c). */
module WmClients {
  import opened Words

  type Window = nat

  const NONE: Window := 0
  const STACK_MAX := 256

  datatype Role = Document | Utility | Dialog | Modal | Unmanaged
  datatype Layer = DocumentLayer | UtilityLayer | ModalLayer
  datatype State = Inactive | Active

  /** client_role_to_layer */
  function LayerOf(role: Role): Layer {
    match role
    case Utility => UtilityLayer
    case Modal => ModalLayer
    case _ => DocumentLayer
  }

  class Client {
    const win: Window
    var frame: Window
    var role: Role
    var state: State
    var layer: Layer
    var transientFor: Window
    var appLeader: Window
    var ownerScope: bool

    constructor (w: Window, r: Role)
      ensures win == w && frame == NONE && role == r && state == Inactive && layer == LayerOf(r) && !ownerScope
    {
      win, frame, role, state, layer, transientFor, appLeader, ownerScope := w, NONE, r, Inactive, LayerOf(r), NONE, w, false;
    }
  }

  /** client_same_app */
  predicate SameApp(a: Client, b: Client)
    reads a`appLeader, b`appLeader
  {
    a == b || (a.appLeader != NONE && b.appLeader != NONE && a.appLeader == b.appLeader)
  }

  /** How strongly m claims the focus of c: 3 as a modal for that window only, 2 as a modal owned by it, 1 as a modal of the application. */
  function Rank(m: Client, c: Client): nat
    reads m`role, m`frame, m`ownerScope, m`transientFor, m`appLeader, c`appLeader
  {
    if m == c || m.role != Modal || m.frame == NONE then 0
    else if m.transientFor != NONE && m.transientFor == c.win then (if m.ownerScope then 3 else 2)
    else if !m.ownerScope && SameApp(m, c) then 1
    else 0
  }

  ghost predicate Blocked(list: seq<Client>, c: Client)
    reads list`role, list`frame, list`ownerScope, list`transientFor, list`appLeader, c`appLeader
  {
    exists m :: m in list && Rank(m, c) > 0
  }

  /** r is the first of the clients with the strongest claim on the focus of c. */
  ghost predicate Claims(list: seq<Client>, c: Client, r: Client)
    reads list`role, list`frame, list`ownerScope, list`transientFor, list`appLeader, c`appLeader
    reads r`role, r`frame, r`ownerScope, r`transientFor, r`appLeader
  {
    && r in list && Rank(r, c) > 0 && (forall m :: m in list ==> Rank(m, c) <= Rank(r, c))
    && exists i :: 0 <= i < |list| && list[i] == r && forall j :: 0 <= j < i ==> Rank(list[j], c) < Rank(r, c)
  }

  lemma ClaimsOnce(list: seq<Client>, c: Client, r: Client, r': Client)
    requires Claims(list, c, r) && Claims(list, c, r')
    ensures r == r'
  {
    hide Rank;
    var i :| 0 <= i < |list| && list[i] == r && forall j :: 0 <= j < i ==> Rank(list[j], c) < Rank(r, c);
    var k :| 0 <= k < |list| && list[k] == r' && forall j :: 0 <= j < k ==> Rank(list[j], c) < Rank(r', c);
    assert Rank(r, c) == Rank(r', c);
  }

  /** The tests that modal_constraint makes of m, and the rank each outcome means. */
  lemma RankCases(m: Client, c: Client)
    ensures Rank(m, c) <= 3
    ensures m == c || m.role != Modal || m.frame == NONE ==> Rank(m, c) == 0
    ensures m != c && m.role == Modal && m.frame != NONE ==>
              var direct := m.transientFor != NONE && m.transientFor == c.win;
              && (m.ownerScope ==> Rank(m, c) == if direct then 3 else 0)
              && (!m.ownerScope ==> Rank(m, c) == if direct then 2 else if SameApp(m, c) then 1 else 0)
  {
  }

  /** The ranks of the first k clients are all below n. */
  ghost predicate Below(list: seq<Client>, c: Client, k: nat, n: nat)
    requires k <= |list|
    reads list`role, list`frame, list`ownerScope, list`transientFor, list`appLeader, c`appLeader
  {
    forall j :: 0 <= j < k ==> Rank(list[j], c) < n
  }

  lemma BelowNext(list: seq<Client>, c: Client, k: nat, n: nat)
    requires k < |list| && Below(list, c, k, n)
    ensures Below(list, c, k + 1, n) <==> Rank(list[k], c) < n
  {
    hide Rank;
    if Rank(list[k], c) < n {
      forall j | 0 <= j < k + 1 ensures Rank(list[j], c) < n {}
    } else {
      assert 0 <= k < k + 1;
    }
  }

  lemma FirstStrongest(list: seq<Client>, c: Client, i: nat)
    requires i < |list| && Rank(list[i], c) > 0 && Below(list, c, i, Rank(list[i], c)) && Below(list, c, |list|, Rank(list[i], c) + 1)
    ensures Blocked(list, c) && Claims(list, c, list[i])
  {
    hide Rank;
  }

  lemma NoneClaims(list: seq<Client>, c: Client)
    requires Below(list, c, |list|, 1)
    ensures !Blocked(list, c)
  {
    hide Rank;
  }

  lemma AnyBelow(list: seq<Client>, c: Client, k: nat)
    requires k <= |list|
    ensures Below(list, c, k, 4)
  {
    hide Rank;
    forall j | 0 <= j < k ensures Rank(list[j], c) < 4 { RankCases(list[j], c); }
  }

  /** modal_constraint: the first of the clients with the strongest claim, or none if nobody has any. */
  method ModalConstraint(list: seq<Client>, c: Client) returns (r: Client?)
    ensures r == null <==> !Blocked(list, c)
    ensures r != null ==> Claims(list, c, r)
  {
    hide Rank, Blocked, Claims, Below;
    var ownerMatch: Client?, appMatch: Client? := null, null;
    ghost var own, app := 0, 0;
    var k := 0;
    BelowNone(list, c);
    while k < |list|
      invariant 0 <= k <= |list| && Below(list, c, k, 3)
      invariant if ownerMatch == null then Below(list, c, k, 2)
                else own < k && list[own] == ownerMatch && Rank(ownerMatch, c) == 2 && Below(list, c, own, 2)
      invariant if appMatch == null then ownerMatch == null ==> Below(list, c, k, 1)
                else app < k && list[app] == appMatch && Rank(appMatch, c) == 1 && (ownerMatch == null ==> Below(list, c, app, 1))
    {
      var m := list[k];
      RankCases(m, c);
      BelowNext(list, c, k, 3);
      if ownerMatch == null { BelowNext(list, c, k, 2); }
      if ownerMatch == null && appMatch == null { BelowNext(list, c, k, 1); }
      k := k + 1;
      if m == c { continue; }
      if m.role != Modal { continue; }
      if m.frame == NONE { continue; }
      if m.ownerScope {
        if m.transientFor != NONE && m.transientFor == c.win {
          ownerMatch, own := m, k - 1;
          AnyBelow(list, c, |list|);
          break;
        }
        continue;
      }
      if m.transientFor != NONE && m.transientFor == c.win {
        if ownerMatch == null { ownerMatch, own := m, k - 1; }
        continue;
      }
      if SameApp(m, c) && appMatch == null { appMatch, app := m, k - 1; }
    }
    if ownerMatch != null {
      FirstStrongest(list, c, own);
      return ownerMatch;
    }
    if appMatch != null {
      FirstStrongest(list, c, app);
      return appMatch;
    }
    NoneClaims(list, c);
    return null;
  }

  lemma BelowNone(list: seq<Client>, c: Client)
    ensures Below(list, c, 0, 1) && Below(list, c, 0, 2) && Below(list, c, 0, 3)
  {
  }
}
