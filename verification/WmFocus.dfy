/** Focus, modality and the fallback grab over all events (6wm/focus.c, 6wm/client.c:284-366, 6wm/6wm.c). */
module WmFocus {
  import opened Words
  import opened WmClients
  import opened WmEvents
  import opened WmStack
  import opened WmChoice

  /** No client twice and no window twice, every client framed and in the layer of its role. */
  ghost predicate Listed(list: seq<Client>)
    reads list`frame, list`layer, list`role
  {
    && Distinct(list)
    && (forall x, y :: x in list && y in list && x.win == y.win ==> x == y)
    && forall x :: x in list ==> x.frame != NONE && x.layer == LayerOf(x.role)
  }

  lemma ListedAgain(a: seq<Client>, b: seq<Client>)
    requires Listed(a) && Distinct(b) && Members(b) == Members(a)
    ensures Listed(b)
  {
    MembersSame(a, b);
  }

  lemma BlockedAgain(a: seq<Client>, b: seq<Client>, c: Client)
    requires Members(b) == Members(a)
    ensures Blocked(a, c) <==> Blocked(b, c)
  {
    MembersSame(a, b);
  }

  /** The windows of a list and their frames. */
  ghost function Framings(list: seq<Client>): set<Framed>
    reads list`frame
  {
    set x | x in list :: Framed(x.win, x.frame)
  }

  /** Whom a window names when no two windows are the same. */
  lemma FoundOnly(list: seq<Client>, w: Window)
    requires Clean(Framings(list))
    ensures Known(Framings(list), w) <==> Found(list, w) != null
    ensures forall x :: x in list && (x.win == w || x.frame == w) ==> Framed(x.win, x.frame) == Framed(Found(list, w).win, Found(list, w).frame)
  {
    var c := Found(list, w);
    if c != null { assert Framed(c.win, c.frame) in Framings(list); }
    forall x | x in list && (x.win == w || x.frame == w)
      ensures c != null && Framed(x.win, x.frame) == Framed(c.win, c.frame)
    {
      assert Framed(x.win, x.frame) in Framings(list);
    }
    if Known(Framings(list), w) {
      var q :| q in Framings(list) && (q.win == w || q.frame == w);
      var x :| x in list && Framed(x.win, x.frame) == q;
    }
  }

  ghost predicate Manages(list: seq<Client>, w: Window) {
    exists x :: x in list && x.win == w
  }

  lemma OneOf(list: seq<Client>, w: Window)
    requires Listed(list)
    ensures forall x, y :: x in list && y in list && x.win == w && y.win == w ==> x == y
  {
  }

  lemma StillManages(a: seq<Client>, b: seq<Client>, c: Client, w: Window)
    requires Members(b) == Members(a) - {c} && c in a && forall x, y :: x in a && y in a && x.win == w && y.win == w ==> x == y
    ensures Manages(b, w) <==> Manages(a, w) && c.win != w
  {
    forall x ensures x in b <==> x in a && x != c { assert x in Members(b) <==> x in Members(a) - {c}; }
  }

  lemma NotAmong(list: seq<Client>, w: Window)
    requires forall q :: q in Framings(list) ==> q.win != w
    ensures forall x :: x in list ==> x.win != w
  {
    forall x | x in list ensures x.win != w { assert Framed(x.win, x.frame) in Framings(list); }
  }

  lemma NoEvents(p: set<Framed>, es: seq<Event>)
    requires es == []
    ensures After(p, es) == p
  {
  }

  /** The clients are those of the windows that were taken over, in the same order. */
  ghost predicate TakenOver(list: seq<Client>, a: seq<Child>)
    reads list`frame, list`role
  {
    && |list| == |a|
    && forall i :: 0 <= i < |a| ==> list[i].win == a[i].window && list[i].role == a[i].reply.role && list[i].frame == a[i].frame
  }

  lemma NoneTaken(list: seq<Client>, children: seq<Child>)
    requires list == [] && children == []
    ensures TakenOver(list, Adopted(children))
  {
  }

  lemma TakenNext(before: seq<Client>, list: seq<Client>, children: seq<Child>, k: nat)
    requires k < |children| && TakenOver(before, Adopted(children[..k]))
    requires var c := children[k];
      if !Adoptable(c) then list == before
      else |list| == |before| + 1 && list[1..] == before && list[0].win == c.window && list[0].role == c.reply.role && list[0].frame == c.frame
    ensures TakenOver(list, Adopted(children[..k + 1]))
  {
    assert children[..k + 1][..k] == children[..k];
    var a := Adopted(children[..k]);
    if Adoptable(children[k]) {
      assert Adopted(children[..k + 1]) == [children[k]] + a && list == [list[0]] + before;
    } else {
      assert Adopted(children[..k + 1]) == [] + a;
    }
  }

  lemma SameList(a: seq<Client>, b: seq<Client>)
    requires Members(a) == Members(b)
    ensures Framings(a) == Framings(b)
  {
    MembersSame(a, b);
  }

  lemma TakenOverFrames(list: seq<Client>, children: seq<Child>)
    requires TakenOver(list, Adopted(children))
    ensures Framings(list) == AtStart(children)
  {
    var a := Adopted(children);
    forall q ensures q in Framings(list) <==> q in AtStart(children) {
      if q in Framings(list) {
        var x :| x in list && q == Framed(x.win, x.frame);
        var i :| 0 <= i < |list| && list[i] == x;
        assert a[i] in a;
      }
      if q in AtStart(children) {
        var c :| c in a && q == Framed(c.window, c.frame);
        var i :| 0 <= i < |a| && a[i] == c;
        assert list[i] in list;
      }
    }
  }

  class Wm {
    var clients: seq<Client>
    var focused: Client?
    var grabbed: bool

    /** A client is active iff it is the focused one. */
    ghost predicate Lit()
      reads this`clients, this`focused, clients
    {
      && (focused != null ==> focused in clients)
      && forall x :: x in clients ==> (x.state == Active <==> x == focused)
    }

    /** The focused client is blocked by nobody, unless it is a modal itself. */
    ghost predicate Guarded()
      reads this`clients, this`focused, clients, focused
    {
      focused != null && focused.role != Modal ==> !Blocked(clients, focused)
    }

    /** Between events. */
    ghost predicate Valid()
      reads this, clients, focused
    {
      Listed(clients) && Lit() && Guarded() && (grabbed <==> focused == null)
    }

    /** Whenever no modal blocks another, the focused client is blocked by nobody at all. */
    lemma FocusedFree()
      requires Valid() && Peaceful(clients) && focused != null
      ensures !Blocked(clients, focused)
    {
    }

    lemma FocusedListed()
      requires Valid()
      ensures focused != null ==> focused in clients
    {
    }

    // ---- stacking ----

    /** stack_raise, up to the restacking itself */
    method Raise(c: Client)
      requires Distinct(clients)
      modifies this`clients
      ensures clients == MoveFront(old(clients), c)
    {
      var i := 0;
      while i < |clients| && clients[i] != c
        invariant 0 <= i <= |clients| && clients == old(clients) && forall j :: 0 <= j < i ==> clients[j] != c
      {
        i := i + 1;
      }
      if i == |clients| { return; }
      WithoutAt(clients, i);
      clients := [c] + (clients[..i] + clients[i + 1..]);
    }

    /** The related clients of a layer, into an array of 256. */
    method Collect(c: Client, layer: Layer) returns (related: seq<Client>)
      ensures related == Capped(Related(clients, c, layer))
    {
      related := [];
      ghost var all := Related(clients, c, layer);
      assert related + all == all;
      for k := 0 to |clients|
        invariant |related| <= STACK_MAX
        invariant clients[k..] == [] || k < |clients|
        invariant |related| < STACK_MAX ==> related + Related(clients[k..], c, layer) == all
        invariant |related| == STACK_MAX ==> |all| >= STACK_MAX && related == all[..STACK_MAX]
      {
        assert clients[k..][1..] == clients[k + 1..];
        if InFamily(clients[k], c, layer) {
          if |related| < STACK_MAX {
            Regroup(related, [clients[k]], Related(clients[k + 1..], c, layer));
            related := related + [clients[k]];
          }
        }
      }
      assert related + [] == related;
    }

    method RaiseEach(s: seq<Client>)
      requires Distinct(clients)
      modifies this`clients
      ensures clients == RaiseAll(old(clients), s)
    {
      assert s[..0] == [];
      for i := 0 to |s|
        invariant Distinct(clients) && clients == RaiseAll(old(clients), s[..i])
      {
        MoveFrontSame(clients, s[i]);
        Raise(s[i]);
        assert s[..i + 1][..i] == s[..i];
      }
      assert s[..|s|] == s;
    }

    /** stack_raise_family */
    method RaiseFamily(c: Client)
      requires Distinct(clients)
      modifies this`clients
      ensures clients == Raised(MoveFront(old(clients), c), c)
      ensures Distinct(clients) && Members(clients) == Members(old(clients))
    {
      hide RaiseAll, Related, MoveFront;
      MoveFrontSame(clients, c);
      Raise(c);
      ghost var front := clients;
      RaisedSame(front, c);
      var utils := Collect(c, UtilityLayer);
      var modals := Collect(c, ModalLayer);
      RaiseAllSame(front, utils);
      RaiseEach(utils);
      RaiseEach(modals);
    }

    // ---- focus ----

    /** deactivate_current */
    method Deactivate()
      requires Lit()
      modifies clients`state
      ensures forall x :: x in clients ==> x.state == Inactive
    {
      if focused != null && focused.state != Inactive { focused.state := Inactive; }
    }

    method Activate(target: Client)
      requires target in clients && Listed(clients) && forall x :: x in clients ==> x.state == Inactive
      modifies this, target`state
      ensures Lit() && focused == target && !grabbed && Listed(clients) && Members(clients) == Members(old(clients))
      ensures clients == Raised(MoveFront(old(clients), target), target)
    {
      hide Listed, Raised, MoveFront;
      grabbed, focused := false, target;
      target.state := Active;
      ghost var before := clients;
      DistinctList(before);
      RaiseFamily(target);
      ListedAgain(before, clients);
      MembersSame(clients, before);
    }

    /** The focused client has come to the front of the list, its family before it. */
    ghost predicate Lifted(list: seq<Client>)
      requires focused != null
      reads this`clients, this`focused, MoveFront(list, focused), focused
    {
      clients == Raised(MoveFront(list, focused), focused)
    }

    method FocusSet(c: Client?)
      requires Listed(clients) && Lit() && (c != null ==> c in clients)
      modifies this, clients`state
      ensures Valid() && Members(clients) == Members(old(clients))
      ensures focused == null <==> c == null
      ensures c != null ==> Focuses(old(clients), c, focused)
      ensures if c == null then clients == old(clients) else Lifted(old(clients))
      ensures c != null ==> (Blocked(clients, focused) <==> Blocked(old(clients), c) && Blocked(old(clients), focused))
    {
      hide Listed, Blocked, Raised, MoveFront, Claims;
      ghost var list := clients;
      var target := c;
      if c != null {
        var m := ModalConstraint(clients, c);
        if m != null {
          ClaimantModal(clients, c, m);
          target := m;
        }
      }
      Deactivate();
      if target == null {
        grabbed, focused := true, null;
        return;
      }
      Activate(target);
      BlockedAgain(list, clients, target);
    }

    /** client_find */
    method Find(win: Window) returns (c: Client?)
      ensures c == Found(clients, win)
    {
      for i := 0 to |clients|
        invariant forall j :: 0 <= j < i ==> clients[j].win != win && clients[j].frame != win
      {
        if clients[i].win == win || clients[i].frame == win {
          FoundAt(clients, win, i);
          return clients[i];
        }
      }
      return null;
    }

    /** The first framed client of a layer. */
    method FirstIn(layer: Layer) returns (c: Client?)
      ensures c == Topmost(clients, layer)
    {
      for i := 0 to |clients|
        invariant forall j :: 0 <= j < i ==> !Stacked(clients[j], layer)
      {
        if Stacked(clients[i], layer) {
          TopmostAt(clients, layer, i);
          return clients[i];
        }
      }
      return null;
    }

    method FirstFramed() returns (c: Client?)
      ensures c == null ==> forall i :: 0 <= i < |clients| ==> clients[i].frame == NONE
      ensures c != null ==> c in clients && c.frame != NONE
    {
      for i := 0 to |clients|
        invariant forall j :: 0 <= j < i ==> clients[j].frame == NONE
      {
        if clients[i].frame != NONE { return clients[i]; }
      }
      return null;
    }

    /** The candidate for the focus: a modal, else a utility, else a document window. */
    method Candidate() returns (best: Client?)
      requires Listed(clients)
      ensures best == Preferred(clients) && (best == null <==> clients == [])
    {
      hide Listed;
      PreferredIn(clients);
      best := FirstIn(ModalLayer);
      if best == null { best := FirstIn(UtilityLayer); }
      if best == null { best := FirstIn(DocumentLayer); }
      if best == null { best := FirstFramed(); }
    }

    /** The candidate, or its owner if that belongs to another application. */
    method ChooseHeir() returns (best: Client?)
      requires Listed(clients)
      ensures best == Heir(clients) && (best == null <==> clients == [])
    {
      hide Listed, Preferred, Found;
      PreferredIn(clients);
      best := Candidate();
      if best != null && best.role == Modal && best.transientFor != NONE {
        var owner := Find(best.transientFor);
        if owner != null && !SameApp(best, owner) { best := owner; }
      }
    }

    /** focus_revert: after a client has gone, something is focused unless nothing is left. */
    method FocusRevert()
      requires Listed(clients) && Lit()
      modifies this, clients`state
      ensures Valid() && Members(clients) == Members(old(clients))
      ensures focused == null <==> clients == []
      ensures Reverts(old(clients), focused) && (focused != null ==> Lifted(old(clients)))
    {
      hide Listed, Blocked, Lit, Guarded, Raised, MoveFront, Claims, Heir, Focuses, Reverts;
      ghost var list := clients;
      var best := ChooseHeir();
      ghost var heir := best;
      if best != null {
        HeirIn(clients);
        var constraint := ModalConstraint(clients, best);
        SentTo(clients, best, constraint);
        if constraint != null { best := constraint; }
        ListedAt(clients, best);
      }
      if best != null && best.frame != NONE { FocusSet(best); } else { FocusSet(null); }
      NoMembers(list, clients);
      ghost var sent := best;
      if heir == null { RevertsNone(list); } else { RevertsTo(list, sent, focused); }
    }

    // ---- the client list ----

    /** The leader of a window: its owner's, if there is another client that owns it and has one, else its own. */
    ghost function LeaderFor(c: Client?, transientFor: Window, leader: Window): Window
      reads this`clients, clients`frame, clients`appLeader
    {
      var owner := Found(clients, transientFor);
      if transientFor == NONE || owner == null || owner == c || owner.appLeader == NONE then leader else owner.appLeader
    }

    lemma NoOwner(leader: Window)
      ensures LeaderFor(null, NONE, leader) == leader
    {
    }

    /** client_update_app_identity: an owner's leader counts more than the window's own. */
    method UpdateIdentity(c: Client, leader: Window)
      modifies c`appLeader
      ensures c.appLeader == LeaderFor(c, c.transientFor, leader)
    {
      c.appLeader := leader;
      if c.transientFor != NONE {
        var owner := Find(c.transientFor);
        if owner != null && owner.appLeader != NONE { c.appLeader := owner.appLeader; }
      }
    }

    /** client_update_modal_scope */
    method UpdateScope(c: Client, ownerScope: bool)
      modifies c`ownerScope
      ensures c.ownerScope == (c.role == Modal && ownerScope)
    {
      c.ownerScope := false;
      if c.role == Modal { c.ownerScope := ownerScope; }
    }

    /** client_manage */
    method Manage(win: Window, reply: Reply) returns (c: Client?)
      modifies this`clients
      ensures c == null <==> reply.role == Unmanaged || !reply.readable
      ensures c == null ==> clients == old(clients)
      ensures c != null ==> fresh(c) && clients == [c] + old(clients) && c.win == win && c.frame == NONE && c.state == Inactive
      ensures c != null ==> c.role == reply.role && c.layer == LayerOf(c.role) && c.transientFor == reply.transientFor
      ensures c != null ==> c.ownerScope == (c.role == Modal && reply.ownerScope)
      ensures c != null ==> c.appLeader == old(LeaderFor(null, reply.transientFor, reply.leader))
    {
      if reply.role == Unmanaged { return null; }
      if !reply.readable { return null; }
      c := new Client(win, reply.role);
      c.transientFor := reply.transientFor;
      UpdateIdentity(c, reply.leader);
      UpdateScope(c, reply.ownerScope);
      clients := [c] + clients;
    }

    /** client_unmanage */
    method Unmanage(c: Client)
      modifies this`clients, this`focused
      ensures clients == Without(old(clients), c) && focused == if old(focused) == c then null else old(focused)
    {
      var i := 0;
      while i < |clients| && clients[i] != c
        invariant 0 <= i <= |clients| && clients == old(clients) && forall j :: 0 <= j < i ==> clients[j] != c
      {
        i := i + 1;
      }
      if i < |clients| {
        WithoutAt(clients, i);
        clients := clients[..i] + clients[i + 1..];
      } else {
        WithoutNone(clients, c);
      }
      if focused == c { focused := null; }
    }

    // ---- events ----

    /** What a new client is like, and that the focus goes to it or to the modal that blocks it. */
    twostate predicate Made(new made: Client, window: Window, reply: Reply, frame: Window)
      reads *
    {
      && Members(clients) == Members(old(clients)) + {made}
      && made.win == window && made.role == reply.role && made.frame == frame && made.transientFor == reply.transientFor
      && made.ownerScope == (made.role == Modal && reply.ownerScope)
      && made.appLeader == old(LeaderFor(null, reply.transientFor, reply.leader))
      && focused != null && Lifted([made] + old(clients)) && if Blocked(clients, made) then Rank(focused, made) > 0 else focused == made
    }

    /** After a request to map a window: it has a client, unless it cannot have one; a client that it had before is focused. */
    twostate predicate Mapped(window: Window, reply: Reply, frame: Window, new made: Client?)
      reads *
    {
      var c := old(Found(clients, window));
      if c != null then made == null && Sent(c)
      else if !Accepted(reply, frame) then made == null && Untouched()
      else made != null && Made(made, window, reply, frame)
    }

    /** on_map_request; the client that the window gets is told for reference. */
    method OnMapRequest(window: Window, reply: Reply, frame: Window) returns (ghost made: Client?)
      requires Valid()
      modifies this, clients`state
      ensures Valid() && (made != null ==> fresh(made)) && Mapped(window, reply, frame, made)
    {
      hide Listed, Blocked, Guarded, Raised, MoveFront, Claims, Found;
      FoundIn(clients, window);
      made := null;
      ghost var list := clients;
      var c := Find(window);
      if c != null {
        ListedAt(clients, c);
        if c.frame == NONE { return; }
        FocusSet(c);
        return;
      }
      c := Manage(window, reply);
      if c == null { return; }
      c.frame := frame;
      if c.frame == NONE {
        Unmanage(c);
        assert ([c] + list)[1..] == list;
        return;
      }
      made := c;
      ListedMore(list, c);
      ghost var more := clients;
      MembersHead(c, list);
      FocusSet(c);
      BlockedAgain(more, clients, c);
      if Blocked(more, c) { ClaimantModal(more, c, focused); }
    }

    /** c has left the list, and the focus has gone where it goes when it is lost. */
    ghost predicate Removed(list: seq<Client>, c: Client)
      reads *
    {
      && Members(clients) == Members(list) - {c} && (focused == null <==> clients == []) && Reverts(Without(list, c), focused)
      && (focused != null ==> Lifted(Without(list, c)))
    }

    /** A client's window is gone: it leaves the list, and the focus goes elsewhere. */
    method Remove(c: Client)
      requires Valid() && c in clients
      modifies this, clients`state, c`frame
      ensures Valid() && Removed(old(clients), c)
    {
      hide Listed, Blocked, Guarded, Raised, MoveFront, Without, Reverts;
      DistinctList(clients);
      ListedWithout(clients, c);
      ghost var list := clients;
      MembersWithin(Without(list, c), list);
      c.frame := NONE;
      Unmanage(c);
      LitWithout(list, c);
      FocusRevert();
    }

    lemma LitWithout(list: seq<Client>, c: Client)
      requires Distinct(list) && clients == Without(list, c) && focused != c
      requires (focused != null ==> focused in list) && forall x :: x in list && x != c ==> (x.state == Active <==> x == focused)
      ensures Lit()
    {
      WithoutSame(list, c);
      MembersWithin(clients, list);
      if focused != null { assert focused in Members(clients); }
    }

    /** A new document window among document windows is focused and comes first. */
    lemma AtFront(made: Client, list: seq<Client>)
      requires Valid() && focused != null && Lifted([made] + list) && (if Blocked(clients, made) then Rank(focused, made) > 0 else focused == made)
      requires made !in list && made.role == Document && (forall x :: x in clients <==> x in [made] + list) && forall x :: x in list ==> x.role == Document
      ensures clients == [made] + list
    {
      hide Raised, MoveFront, Rank, Blocked;
      NoModals(clients, made);
      assert ([made] + list)[1..] == list;
      DocumentsStay([made] + list, made);
    }

    /** Nothing has changed. */
    twostate predicate Untouched()
      reads this
    {
      clients == old(clients) && focused == old(focused)
    }

    /** Frames stay. */
    twostate predicate SameFrames()
      reads this`clients, clients`frame
    {
      forall x :: x in clients && x in old(clients) ==> x.frame == old(x.frame)
    }

    twostate predicate Unmapped(window: Window, fromRoot: bool, synthetic: bool)
      reads *
    {
      var c := old(Found(clients, window));
      if c == null || window == old(c.frame) || synthetic || fromRoot then Untouched() else Removed(old(clients), c)
    }

    /** on_unmap_notify: only a client's own window, and only when the client itself has withdrawn it. */
    method OnUnmap(window: Window, fromRoot: bool, synthetic: bool)
      requires Valid()
      modifies this, clients`state, clients`frame
      ensures Valid() && Unmapped(window, fromRoot, synthetic) && SameFrames()
    {
      hide Listed, Blocked, Guarded, Lit, Found, Reverts, Without;
      var c := Find(window);
      FoundIn(clients, window);
      if c == null { return; }
      if window == c.frame { return; }
      if synthetic { return; }
      ListedAt(clients, c);
      if c.frame != NONE && window == c.win && fromRoot { return; }
      Remove(c);
    }

    twostate predicate Destroyed(window: Window)
      reads *
    {
      var c := old(Found(clients, window));
      if c == null then Untouched() else Removed(old(clients), c)
    }

    /**
     * on_destroy_notify. The window is managed no longer, unless it was managed and its identifier is also that of the
     * frame of a client before its own.
     */
    method OnDestroy(window: Window)
      requires Valid()
      modifies this, clients`state, clients`frame
      ensures Valid() && Destroyed(window) && SameFrames()
      ensures Manages(clients, window) <==> old(Manages(clients, window) && Found(clients, window).win != window)
    {
      hide Listed, Blocked, Guarded, Lit, Found, Reverts, Without;
      var c := Find(window);
      FoundIn(clients, window);
      if c == null { return; }
      ghost var list := clients;
      OneOf(list, window);
      Remove(c);
      StillManages(list, clients, c, window);
    }

    /** The focus has gone to c, or to the modal that blocks it. */
    twostate predicate Sent(c: Client)
      reads *
    {
      Members(clients) == Members(old(clients)) && focused != null && Focuses(old(clients), c, focused) && Lifted(old(clients))
    }

    twostate predicate Clicked(window: Window, onBar: bool)
      reads *
    {
      var c := old(Found(clients, window));
      if onBar || c == null || c == old(focused) then Untouched() else Sent(c)
    }

    /** on_button_press: a click outside the menu bar focuses the client it is in. */
    method OnButton(window: Window, onBar: bool)
      requires Valid()
      modifies this, clients`state
      ensures Valid() && Clicked(window, onBar)
    {
      hide Listed, Blocked, Guarded, Lit, Raised, MoveFront, Found, Focuses;
      if onBar { return; }
      var c := Find(window);
      FoundIn(clients, window);
      if c == null { return; }
      if c != focused { FocusSet(c); }
    }

    /** The client that the cycling keys lead to. */
    ghost function Next(forward: bool, all: bool): Client?
      requires focused != null
      reads this`clients, this`focused, clients
    {
      var order := CycleOrder(clients, all || CycleOrder(clients, false) == []);
      if order == [] then null else Neighbour(order, focused, forward)
    }

    twostate predicate Cycled(forward: bool, all: bool)
      reads *
    {
      if old(focused) == null || old(Next(forward, all)) == null then Untouched() else Sent(old(Next(forward, all)))
    }

    method OnCycle(forward: bool, all: bool)
      requires Valid()
      modifies this, clients`state
      ensures Valid() && Cycled(forward, all)
    {
      hide Listed, Blocked, Guarded, Lit, Raised, MoveFront, Focuses, CycleOrder;
      if focused == null { return; }
      var target := CycleTarget(clients, focused, forward, all);
      if target != null { FocusSet(target); }
    }

    method ReadAgain(c: Client, reply: Reply)
      requires Listed(clients) && c in clients
      modifies c`transientFor, c`appLeader, c`role, c`layer, c`ownerScope
      ensures Listed(clients) && c.role == Reread(old(c.role), reply) && c.transientFor == reply.transientFor
      ensures c.ownerScope == (c.role == Modal && reply.ownerScope)
      ensures c.appLeader == old(LeaderFor(c, reply.transientFor, reply.leader))
    {
      c.transientFor := reply.transientFor;
      UpdateIdentity(c, reply.leader);
      if reply.role != Unmanaged { c.role, c.layer := reply.role, LayerOf(reply.role); }
      UpdateScope(c, reply.ownerScope);
    }

    twostate predicate Reconsidered(window: Window, hint: bool, reply: Reply)
      reads *
    {
      var c := old(Found(clients, window));
      if c == null || window != c.win || !hint then Untouched()
      else
        && Members(clients) == Members(old(clients))
        && c.role == Reread(old(c.role), reply) && c.layer == LayerOf(c.role)
        && c.transientFor == reply.transientFor && c.ownerScope == (c.role == Modal && reply.ownerScope)
        && c.appLeader == old(LeaderFor(c, reply.transientFor, reply.leader))
        && (old(focused) == null ==> focused == null)
        && (old(focused) != null ==>
              focused != null && if Blocked(clients, old(focused)) then Rank(focused, old(focused)) > 0 else focused == old(focused))
    }

    /** on_property_notify: the properties that decide role, layer, family and modality are read again, and the focus is checked again. */
    method OnProperty(window: Window, hint: bool, reply: Reply)
      requires Valid()
      modifies this, clients
      ensures Valid() && Reconsidered(window, hint, reply) && SameFrames()
    {
      hide Listed, Blocked, Raised, MoveFront, Found, Rank, Claims;
      var c := Find(window);
      FoundIn(clients, window);
      if c == null { return; }
      if window != c.win { return; }
      if !hint { return; }
      ghost var list := clients;
      var layer, leader, scope := c.layer, c.appLeader, c.ownerScope;
      ReadAgain(c, reply);
      DistinctList(clients);
      if (c.layer != layer || c.appLeader != leader || c.ownerScope != scope) && focused != null {
        RaiseFamily(focused);
        ListedAgain(list, clients);
        MembersWithin(clients, list);
        MembersWithin(list, clients);
      }
      if focused != null {
        ghost var was, before := focused, clients;
        FocusSet(focused);
        BlockedAgain(before, clients, was);
        if Blocked(before, was) { ClaimantModal(before, was, focused); }
      }
    }

    /** What an event leads to. */
    twostate predicate Handled(e: Event, new made: Client?)
      reads *
    {
      match e
      case MapRequest(window, reply, frame) => Mapped(window, reply, frame, made)
      case Unmap(window, fromRoot, synthetic) => Unmapped(window, fromRoot, synthetic)
      case Destroy(window) => Destroyed(window)
      case Button(window, onBar) => Clicked(window, onBar)
      case Cycle(forward, all) => Cycled(forward, all)
      case Property(window, hint, reply) => Reconsidered(window, hint, reply)
      case Other => Untouched()
    }

    twostate lemma SameMembers()
      requires Members(clients) == Members(old(clients)) && SameFrames()
      ensures Framings(clients) == old(Framings(clients))
    {
      MembersSame(clients, old(clients));
    }

    twostate lemma OneMore(new made: Client)
      requires made !in old(clients) && Members(clients) == Members(old(clients)) + {made} && SameFrames()
      ensures Framings(clients) == old(Framings(clients)) + {Framed(made.win, made.frame)}
    {
      forall x ensures x in clients <==> x in old(clients) || x == made { assert x in Members(clients) <==> x in Members(old(clients)) + {made}; }
    }

    twostate lemma OneLess(c: Client)
      requires c in old(clients) && old(Listed(clients)) && Members(clients) == Members(old(clients)) - {c} && SameFrames()
      ensures Framings(clients) == old(Framings(clients)) - {Framed(c.win, old(c.frame))}
    {
      forall x ensures x in clients <==> x in old(clients) && x != c { assert x in Members(clients) <==> x in Members(old(clients)) - {c}; }
    }

    twostate lemma DestroyStep(window: Window)
      requires old(Listed(clients)) && old(Clean(Framings(clients))) && Destroyed(window) && SameFrames()
      ensures Framings(clients) == Step(old(Framings(clients)), Destroy(window))
    {
      hide Reverts, Listed, Found, Members, Clean;
      OnlyOne(window);
      ghost var c := old(Found(clients, window));
      if c == null { SameMembers(); } else { OneLess(c); }
    }

    twostate lemma UnmapStep(new window: Window, new fromRoot: bool, new synthetic: bool)
      requires old(Listed(clients)) && old(Clean(Framings(clients))) && Unmapped(window, fromRoot, synthetic) && SameFrames()
      ensures Framings(clients) == Step(old(Framings(clients)), Unmap(window, fromRoot, synthetic))
    {
      hide Reverts, Listed, Found, Members, Clean;
      OnlyOne(window);
      ghost var c := old(Found(clients, window));
      if c == null || window == old(c.frame) || synthetic || fromRoot { SameMembers(); } else { OneLess(c); }
    }

    twostate lemma MapStep(new window: Window, new reply: Reply, new frame: Window, new made: Client?)
      requires old(Listed(clients)) && old(Clean(Framings(clients))) && Mapped(window, reply, frame, made) && SameFrames()
      requires made != null ==> made !in old(clients)
      ensures Framings(clients) == Step(old(Framings(clients)), MapRequest(window, reply, frame))
    {
      hide Focuses, Blocked, Rank, Listed, Found, Members, Clean, LeaderFor;
      OnlyOne(window);
      if made == null { SameMembers(); } else { OneMore(made); }
    }

    /** In the list as it was, the window named one client at most. */
    twostate lemma OnlyOne(w: Window)
      requires old(Clean(Framings(clients)))
      ensures var p, c := old(Framings(clients)), old(Found(clients, w));
              && (Known(p, w) <==> c != null)
              && (c != null ==> c in old(clients) && (c.win == w || old(c.frame) == w) && Framed(c.win, old(c.frame)) in p)
              && (forall q :: q in p && (q.win == w || q.frame == w) ==> c != null && q == Framed(c.win, old(c.frame)))
              && (forall q :: q in p ==> q.win != w || !(exists r :: r in p && r.frame == w))
    {
      ghost var p, c := old(Framings(clients)), old(Found(clients, w));
      if c != null { assert Framed(c.win, old(c.frame)) in p; }
      forall q | q in p && (q.win == w || q.frame == w)
        ensures c != null && q == Framed(c.win, old(c.frame))
      {
        ghost var x :| x in old(clients) && Framed(x.win, old(x.frame)) == q;
      }
    }

    lemma ValidParts()
      requires Valid()
      ensures Listed(clients)
    {
    }

    method Handle(e: Event) returns (ghost made: Client?)
      requires Valid()
      modifies this, clients
      ensures Valid() && Handled(e, made) && SameFrames() && (made != null ==> fresh(made))
      ensures old(Clean(Framings(clients))) ==> Framings(clients) == Step(old(Framings(clients)), e)
      ensures forall i :: 0 <= i < |clients| ==> clients[i] in old(clients) || clients[i] == made
    {
      hide Listed, Blocked, Guarded, Lit, Rank, Members, Found, Focuses, Reverts, Valid;
      hide Clean, Framings, Next, LeaderFor;
      made := null;
      ghost var list, clean := clients, Clean(Framings(clients));
      assert Listed(clients) by { ValidParts(); }
      match e {
        case MapRequest(window, reply, frame) =>
          made := OnMapRequest(window, reply, frame);
          if clean { MapStep(window, reply, frame, made); }
        case Unmap(window, fromRoot, synthetic) =>
          OnUnmap(window, fromRoot, synthetic);
          if clean { UnmapStep(window, fromRoot, synthetic); }
        case Destroy(window) =>
          OnDestroy(window);
          if clean { DestroyStep(window); }
        case Button(window, onBar) =>
          OnButton(window, onBar);
          SameMembers();
        case Cycle(forward, all) =>
          OnCycle(forward, all);
          SameMembers();
        case Property(window, hint, reply) =>
          OnProperty(window, hint, reply);
          SameMembers();
        case Other => {}
      }
      if made == null { MembersWithin(clients, list); } else { MembersAmong(clients, list, made); }
    }

    /**
     * Every run of events, from any state between events: if every new frame has an identifier of its own, the managed
     * windows are those that the events say, and a window that is destroyed stays away until it asks to be mapped again.
     */
    method Run(events: seq<Event>)
      requires Valid()
      modifies this, clients
      ensures Valid()
      ensures OwnFrames(old(Framings(clients)), events) ==> Framings(clients) == After(old(Framings(clients)), events)
      ensures OwnFrames(old(Framings(clients)), events) ==>
                forall k, w :: 0 <= k < |events| && events[k] == Destroy(w) && (forall j :: k < j < |events| ==> !Maps(events[j], w)) ==>
                  forall x :: x in clients ==> x.win != w
    {
      hide Valid, Framings, Clean, Step, Handled, NewFrame, SameFrames, After;
      ghost var p := Framings(clients);
      assert After(p, events[..0]) == p by { NoEvents(p, events[..0]); }
      for k := 0 to |events|
        invariant Valid() && forall i :: 0 <= i < |clients| ==> clients[i] in old(clients) || fresh(clients[i])
        invariant OwnFrames(p, events) ==> Framings(clients) == After(p, events[..k])
      {
        if OwnFrames(p, events) {
          OwnFramesPrefix(p, events, k);
          CleanAfter(p, events[..k]);
          AfterNext(p, events, k);
        }
        ghost var made := Handle(events[k]);
      }
      assert events[..|events|] == events;
      forall k, w | OwnFrames(p, events) && 0 <= k < |events| && events[k] == Destroy(w) && (forall j :: k < j < |events| ==> !Maps(events[j], w))
        ensures forall x :: x in clients ==> x.win != w
      {
        GoneUntilMapped(p, events, k, w);
        NotAmong(clients, w);
      }
    }

    constructor ()
      ensures clients == [] && focused == null && !grabbed
    {
      clients, focused, grabbed := [], null, false;
    }

    /** One window found at startup. */
    method Adopt(child: Child)
      requires Listed(clients) && focused == null && (forall x :: x in clients ==> x.state == Inactive && x.win != child.window)
      modifies this`clients, this`focused
      ensures focused == null && Listed(clients)
      ensures forall i :: 0 <= i < |clients| ==> clients[i] in old(clients) || fresh(clients[i])
      ensures forall x :: x in clients ==> x.state == Inactive && (x in old(clients) || (fresh(x) && x.win == child.window))
      ensures if !Adoptable(child) then clients == old(clients)
              else
                && |clients| == |old(clients)| + 1 && clients[1..] == old(clients) && fresh(clients[0])
                && clients[0].win == child.window && clients[0].role == child.reply.role && clients[0].frame == child.frame
                && clients[0].transientFor == child.reply.transientFor
                && clients[0].ownerScope == (child.reply.role == Modal && child.reply.ownerScope)
                && clients[0].appLeader == old(LeaderFor(null, child.reply.transientFor, child.reply.leader))
    {
      hide Listed;
      if !child.viewable { return; }
      ghost var list := clients;
      var c := Manage(child.window, child.reply);
      if c == null { return; }
      c.frame := child.frame;
      if c.frame == NONE {
        Unmanage(c);
        assert ([c] + list)[1..] == list;
        return;
      }
      ListedMore(list, c);
    }

    /** All windows found at startup, one after the other. */
    method AdoptAll(children: seq<Child>)
      requires clients == [] && focused == null
      requires forall i, j :: 0 <= i < j < |children| ==> children[i].window != children[j].window
      modifies this`clients, this`focused
      ensures focused == null && Listed(clients) && TakenOver(clients, Adopted(children))
      ensures forall i :: 0 <= i < |clients| ==> fresh(clients[i])
      ensures forall x :: x in clients ==> x.state == Inactive
    {
      hide Listed, TakenOver, LeaderFor, Adopted;
      ListedNone(clients);
      assert TakenOver(clients, Adopted(children[..0])) by { NoneTaken(clients, children[..0]); }
      for k := 0 to |children|
        invariant focused == null && Listed(clients) && TakenOver(clients, Adopted(children[..k]))
        invariant forall i :: 0 <= i < |clients| ==> fresh(clients[i])
        invariant forall x :: x in clients ==> x.state == Inactive && exists i :: 0 <= i < k && children[i].window == x.win
      {
        ghost var before := clients;
        Adopt(children[k]);
        TakenNext(before, clients, children, k);
      }
      assert children[..|children|] == children;
    }

    /** scan_existing_windows, and the fallback when it leaves nothing focused. The list before anything is focused is told for reference. */
    method Start(children: seq<Child>) returns (ghost list: seq<Client>)
      requires clients == [] && focused == null && !grabbed
      requires forall i, j :: 0 <= i < j < |children| ==> children[i].window != children[j].window
      modifies this
      ensures Valid() && forall i :: 0 <= i < |clients| ==> fresh(clients[i])
      ensures TakenOver(list, Adopted(children)) && Framings(clients) == AtStart(children) && Members(clients) == Members(list)
      ensures var c := Topmost(list, DocumentLayer); if c == null then focused == null else focused != null && Focuses(list, c, focused)
    {
      hide Listed, Raised, MoveFront, Topmost, Focuses, Adopted, Framings, AtStart, TakenOver;
      AdoptAll(children);
      TakenOverFrames(clients, children);
      var c := FirstOf(DocumentLayer);
      list := clients;
      if c != null { FocusSet(c); }
      if focused == null { FocusSet(null); }
      MembersWithin(clients, list);
      MembersWithin(list, clients);
      SameList(list, clients);
    }

    /** The first client of a layer; all are framed. */
    method FirstOf(layer: Layer) returns (c: Client?)
      requires Listed(clients)
      ensures c == Topmost(clients, layer)
    {
      for i := 0 to |clients|
        invariant forall j :: 0 <= j < i ==> clients[j].layer != layer
      {
        ListedAt(clients, clients[i]);
        if clients[i].layer == layer {
          TopmostAt(clients, layer, i);
          return clients[i];
        }
      }
      return null;
    }
  }

  /** The role of a client whose properties have changed; a window once managed stays so. */
  function Reread(role: Role, reply: Reply): Role {
    if reply.role == Unmanaged then role else reply.role
  }

  lemma HeirIn(list: seq<Client>)
    ensures Heir(list) != null ==> Heir(list) in list
  {
  }

  lemma SentTo(list: seq<Client>, c: Client, m: Client?)
    requires c in list && (m == null <==> !Blocked(list, c)) && (m != null ==> Claims(list, c, m))
    ensures if m == null then Focuses(list, c, c) else m in list && Focuses(list, c, m)
  {
    hide Blocked, Rank;
  }

  lemma RevertsNone(list: seq<Client>)
    requires Heir(list) == null
    ensures Reverts(list, null)
  {
    hide Heir;
  }

  lemma RevertsTo(list: seq<Client>, m: Client, r: Client)
    requires Heir(list) != null && m in list && Focuses(list, Heir(list), m) && Focuses(list, m, r)
    ensures Reverts(list, r)
  {
    hide Heir, Focuses;
  }

  lemma FoundIn(list: seq<Client>, win: Window)
    ensures Found(list, win) != null ==> Found(list, win) in list && (Found(list, win).win == win || Found(list, win).frame == win)
    ensures Found(list, win) == null ==> forall x :: x in list ==> x.win != win && x.frame != win
  {
  }

  /** In a list of framed clients somebody is preferred unless it is empty. */
  lemma PreferredIn(list: seq<Client>)
    requires Listed(list)
    ensures Preferred(list) != null ==> Preferred(list) in list
    ensures Preferred(list) == null <==> list == []
    ensures list != [] ==> exists i :: 0 <= i < |list| && list[i].frame != NONE
  {
    if list != [] {
      var c := list[0];
      assert c in list && c.frame != NONE;
      assert Stacked(c, ModalLayer) || Stacked(c, UtilityLayer) || Stacked(c, DocumentLayer);
    }
  }

  lemma ListedMore(before: seq<Client>, c: Client)
    requires Listed(before) && c !in before && c.frame != NONE && c.layer == LayerOf(c.role)
    requires forall x :: x in before ==> x.win != c.win
    ensures Listed([c] + before)
  {
  }

  lemma ListedWithout(list: seq<Client>, c: Client)
    requires Listed(list)
    ensures Listed(Without(list, c)) && c !in Without(list, c) && Members(Without(list, c)) == Members(list) - {c}
  {
    WithoutSame(list, c);
    MembersWithin(Without(list, c), list);
  }

  // ---- cycling ----

  /** The framed clients of a layer, in list order. */
  function InLayer(list: seq<Client>, layer: Layer): seq<Client>
    reads list
  {
    if list == [] then []
    else if Stacked(list[|list| - 1], layer) then InLayer(list[..|list| - 1], layer) + [list[|list| - 1]]
    else InLayer(list[..|list| - 1], layer)
  }

  lemma {:induction false} InLayerIn(list: seq<Client>, layer: Layer)
    ensures AllIn(InLayer(list, layer), list)
  {
    if list != [] {
      var t := list[..|list| - 1];
      InLayerIn(t, layer);
      assert forall x :: x in t ==> x in list;
      assert list[|list| - 1] in list;
    }
  }

  /** collect_cycle_order, for one layer. */
  method CollectLayer(list: seq<Client>, layer: Layer, before: seq<Client>) returns (order: seq<Client>)
    requires |before| <= STACK_MAX
    ensures order == Capped(before + InLayer(list, layer))
  {
    order := before;
    assert before + [] == before;
    var k := 0;
    while k < |list| && |order| < STACK_MAX
      invariant 0 <= k <= |list| && |order| <= STACK_MAX && order == before + InLayer(list[..k], layer)
    {
      assert list[..k + 1][..k] == list[..k];
      if Stacked(list[k], layer) {
        Regroup(before, InLayer(list[..k], layer), [list[k]]);
        order := order + [list[k]];
      }
      k := k + 1;
    }
    InLayerPrefix(list, layer, k);
    assert list[..|list|] == list;
  }

  lemma {:induction false} InLayerPrefix(list: seq<Client>, layer: Layer, k: nat)
    requires k <= |list|
    ensures InLayer(list[..k], layer) <= InLayer(list, layer)
    decreases |list|
  {
    if k < |list| {
      var t := list[..|list| - 1];
      assert t[..k] == list[..k];
      InLayerPrefix(t, layer, k);
    } else {
      assert list[..k] == list;
    }
  }

  ghost function CycleOrder(list: seq<Client>, all: bool): seq<Client>
    reads list
  {
    var documents := InLayer(list, DocumentLayer);
    if all then Capped(Capped(Capped(documents) + InLayer(list, UtilityLayer)) + InLayer(list, ModalLayer)) else Capped(documents)
  }

  method CollectOrder(list: seq<Client>, all: bool) returns (order: seq<Client>)
    ensures order == CycleOrder(list, all) && |order| <= STACK_MAX
  {
    order := CollectLayer(list, DocumentLayer, []);
    assert [] + InLayer(list, DocumentLayer) == InLayer(list, DocumentLayer);
    if all {
      order := CollectLayer(list, UtilityLayer, order);
      order := CollectLayer(list, ModalLayer, order);
    }
  }

  lemma CycleOrderIn(list: seq<Client>, all: bool)
    ensures AllIn(CycleOrder(list, all), list)
  {
    InLayerIn(list, DocumentLayer);
    InLayerIn(list, UtilityLayer);
    InLayerIn(list, ModalLayer);
  }

  /** The neighbour in a cyclic order; the first one for a client outside it. */
  function Neighbour(order: seq<Client>, from: Client, forward: bool): (r: Client)
    requires order != []
    ensures r in order
  {
    if from !in order then order[0]
    else order[(IndexOf(order, from) + (if forward then 1 else |order| - 1)) % |order|]
  }

  /** One step on and one step back in the same order leads nowhere. */
  lemma NeighbourBack(order: seq<Client>, c: Client)
    requires Distinct(order) && c in order
    ensures Neighbour(order, Neighbour(order, c, true), false) == c && Neighbour(order, Neighbour(order, c, false), true) == c
  {
    var n, i := |order|, IndexOf(order, c);
    Around(n, i);
    var a, b := (i + 1) % n, (i + n - 1) % n;
    assert IndexOf(order, order[a]) == a && IndexOf(order, order[b]) == b;
  }

  lemma Around(n: nat, i: nat)
    requires i < n
    ensures (i + 1) % n < n && (i + n - 1) % n < n
    ensures ((i + 1) % n + n - 1) % n == i && ((i + n - 1) % n + 1) % n == i
  {
    if i + 1 == n { Quotient(n, 1, n, 0); } else { Quotient(i + 1, 0, n, i + 1); }
    if i == 0 { Quotient(n - 1, 0, n, n - 1); } else { Quotient(i + n - 1, 1, n, i - 1); }
    if i == 0 { Quotient(n, 1, n, 0); } else { Quotient(i, 0, n, i); }
    if i + 1 == n { Quotient(n - 1, 0, n, n - 1); } else { Quotient(i + n, 1, n, i); }
  }

  /** cycle_target */
  method CycleTarget(list: seq<Client>, from: Client, forward: bool, all: bool) returns (target: Client?)
    ensures var order := CycleOrder(list, all || CycleOrder(list, false) == []);
            if order == [] then target == null else target == Neighbour(order, from, forward)
    ensures target != null ==> target in list
  {
    hide CycleOrder, Neighbour, IndexOf;
    var order := CollectOrder(list, all);
    if |order| == 0 && !all { order := CollectOrder(list, true); }
    CycleOrderIn(list, all);
    CycleOrderIn(list, true);
    if |order| == 0 { return null; }
    var i := 0;
    while i < |order| && order[i] != from
      invariant 0 <= i <= |order| && forall j :: 0 <= j < i ==> order[j] != from
    {
      i := i + 1;
    }
    if i == |order| {
      NeighbourNone(order, from, forward);
      return order[0];
    }
    Around(|order|, i);
    NeighbourAt(order, from, i);
    if forward { return order[(i + 1) % |order|]; }
    return order[(i + |order| - 1) % |order|];
  }

  lemma NeighbourNone(order: seq<Client>, from: Client, forward: bool)
    requires order != [] && forall j :: 0 <= j < |order| ==> order[j] != from
    ensures Neighbour(order, from, forward) == order[0]
  {
  }

  lemma NeighbourAt(order: seq<Client>, from: Client, i: nat)
    requires i < |order| && order[i] == from && forall j :: 0 <= j < i ==> order[j] != from
    ensures (i + 1) % |order| < |order| && (i + |order| - 1) % |order| < |order|
    ensures Neighbour(order, from, true) == order[(i + 1) % |order|]
    ensures Neighbour(order, from, false) == order[(i + |order| - 1) % |order|]
  {
    Around(|order|, i);
    assert IndexOf(order, from) == i;
  }

  lemma ClaimantModal(list: seq<Client>, c: Client, m: Client)
    requires Claims(list, c, m)
    ensures m in list && m != c && m.role == Modal && Rank(m, c) > 0
  {
  }

  lemma DistinctList(list: seq<Client>)
    requires Listed(list)
    ensures Distinct(list)
  {
  }

  lemma ListedAt(list: seq<Client>, c: Client)
    requires Listed(list) && c in list
    ensures c.frame != NONE && c.layer == LayerOf(c.role)
  {
  }

  lemma NoMembers(a: seq<Client>, b: seq<Client>)
    requires Members(a) == Members(b)
    ensures a == [] <==> b == []
  {
    if a != [] { assert a[0] in Members(a); }
    if b != [] { assert b[0] in Members(b); }
  }

  lemma {:induction false} WithoutNone(list: seq<Client>, c: Client)
    requires c !in list
    ensures Without(list, c) == list
  {
    if list != [] {
      assert list[0] in list;
      assert forall x :: x in list[1..] ==> x in list;
      WithoutNone(list[1..], c);
    }
  }

  lemma MembersAmong(a: seq<Client>, b: seq<Client>, c: Client)
    requires Members(a) == Members(b) + {c}
    ensures forall i :: 0 <= i < |a| ==> a[i] in b || a[i] == c
  {
    forall i | 0 <= i < |a| ensures a[i] in b || a[i] == c { assert a[i] in Members(a); }
  }

  lemma ListedNone(list: seq<Client>)
    requires list == []
    ensures Listed(list)
  {
  }

  /** Every session: startup with any windows, then any events. */
  method Session(children: seq<Child>, events: seq<Event>) returns (wm: Wm)
    requires forall i, j :: 0 <= i < j < |children| ==> children[i].window != children[j].window
    ensures wm.Valid() && (Peaceful(wm.clients) && wm.focused != null ==> !Blocked(wm.clients, wm.focused))
    ensures OwnFrames(AtStart(children), events) ==> Framings(wm.clients) == After(AtStart(children), events)
  {
    hide Wm.Valid;
    wm := new Wm();
    ghost var list := wm.Start(children);
    wm.Run(events);
    if Peaceful(wm.clients) && wm.focused != null { wm.FocusedFree(); }
  }

  lemma NobodyAtStart(clients: seq<Client>, list: seq<Client>)
    requires TakenOver(list, Adopted([])) && Members(clients) == Members(list)
    ensures clients == []
  {
    NoMembers(clients, list);
  }

  lemma BlockedBy(list: seq<Client>, m: Client, c: Client)
    requires m in list && Rank(m, c) > 0
    ensures Blocked(list, c)
  {
  }

  lemma OfOneApplication(m: Client, c: Client)
    requires m != c && m.role == Modal && m.frame != NONE && m.transientFor == NONE && !m.ownerScope
    requires m.appLeader != NONE && m.appLeader == c.appLeader
    ensures Rank(m, c) == 1
  {
  }

  /** Two modals of one application block each other: mapping the second leaves the first focused, and blocked. */
  method TwoModals() returns (wm: Wm)
    ensures wm.Valid() && wm.focused != null && Blocked(wm.clients, wm.focused)
  {
    hide Raised, MoveFront, Wm.Valid, Blocked, Claims, Found, Focuses, Rank, Topmost, Wm.Lifted, Wm.LeaderFor, TakenOver, Framings;
    wm := new Wm();
    ghost var list := wm.Start([]);
    NobodyAtStart(wm.clients, list);
    var reply := Reply(Modal, true, NONE, 9, false);
    wm.NoOwner(9);
    ghost var first := wm.OnMapRequest(1, reply, 11);
    MembersAmong(wm.clients, [], first);
    assert first in Members(wm.clients);
    wm.NoOwner(9);
    ghost var second := wm.OnMapRequest(2, reply, 12);
    assert first in Members(wm.clients) && second in Members(wm.clients);
    OfOneApplication(first, second);
    OfOneApplication(second, first);
    RankCases(second, second);
    BlockedBy(wm.clients, first, second);
    BlockedBy(wm.clients, second, first);
    wm.FocusedListed();
    assert wm.focused in Members(wm.clients) && wm.focused == first;
  }

  lemma NoModals(list: seq<Client>, c: Client)
    requires forall x :: x in list ==> x.role != Modal
    ensures !Blocked(list, c)
  {
  }

  lemma {:induction false} NoRelated(list: seq<Client>, c: Client, layer: Layer)
    requires forall x :: x in list ==> x.layer != layer
    ensures Related(list, c, layer) == []
  {
    if list != [] {
      assert list[0] in list && forall x :: x in list[1..] ==> x in list;
      NoRelated(list[1..], c, layer);
    }
  }

  /** A document window in front of document windows stays where it is. */
  lemma DocumentsStay(list: seq<Client>, c: Client)
    requires list != [] && list[0] == c && c !in list[1..] && forall x :: x in list ==> x.layer == DocumentLayer
    ensures Raised(MoveFront(list, c), c) == list
  {
    hide Related;
    WithoutNone(list[1..], c);
    assert MoveFront(list, c) == list by { assert list == [c] + list[1..]; }
    NoRelated(list, c, UtilityLayer);
    NoRelated(list, c, ModalLayer);
  }

  /** Where a frame has the identifier of a client's window, destroying that window takes the wrong client away. */
  method FrameClash() returns (wm: Wm)
    ensures wm.Valid() && Manages(wm.clients, 2) && !Manages(wm.clients, 1)
  {
    hide Wm.Valid, Blocked, Focuses, Reverts, Raised, MoveFront, Rank, Topmost, Wm.LeaderFor, TakenOver, Framings;
    wm := new Wm();
    ghost var list := wm.Start([]);
    NobodyAtStart(wm.clients, list);
    ghost var two := wm.OnMapRequest(2, Reply(Document, true, NONE, 2, false), 3);
    MembersAmong(wm.clients, [], two);
    wm.AtFront(two, []);
    assert wm.clients == [two];
    ghost var one := wm.OnMapRequest(1, Reply(Document, true, NONE, 1, false), 2);
    MembersAmong(wm.clients, [two], one);
    wm.AtFront(one, [two]);
    ghost var both := wm.clients;
    wm.OnDestroy(2);
    StillManages(both, wm.clients, one, 1);
  }
}
