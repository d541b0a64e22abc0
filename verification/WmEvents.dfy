/** The events of the window manager, and which windows are managed after any run of them (6wm/6wm.c:274-322, 362-406, 862-977). */
module WmEvents {
  import opened WmClients

  /** What the X server says about a window: its role by its properties, whether its attributes can be read, the window it is transient for, its leader, and its modal scope. */
  datatype Reply = Reply(role: Role, readable: bool, transientFor: Window, leader: Window, ownerScope: bool)

  datatype Event =
    | MapRequest(window: Window, reply: Reply, frame: Window)
    | Unmap(window: Window, fromRoot: bool, synthetic: bool)
    | Destroy(window: Window)
    | Button(window: Window, onBar: bool)
    | Cycle(forward: bool, all: bool)
    | Property(window: Window, hint: bool, reply: Reply)
    | Other

  /** A window there at startup, and the frame it gets. */
  datatype Child = Child(window: Window, viewable: bool, reply: Reply, frame: Window)

  /** Can a window with these properties and this frame be managed? */
  ghost predicate Accepted(reply: Reply, frame: Window) {
    reply.role != Unmanaged && reply.readable && frame != NONE
  }

  // ---- the managed windows ----

  /** A managed window and its frame. */
  datatype Framed = Framed(win: Window, frame: Window)

  ghost predicate Known(p: set<Framed>, w: Window) {
    exists q :: q in p && (q.win == w || q.frame == w)
  }

  /** All windows and frames are different, as X identifiers are. */
  ghost predicate Clean(p: set<Framed>) {
    && (forall q, r :: q in p && r in p && (q.win == r.win || q.frame == r.frame) ==> q == r)
    && forall q, r :: q in p && r in p ==> q.win != r.frame
  }

  /** A new frame has an identifier of its own. */
  ghost predicate NewFrame(p: set<Framed>, e: Event) {
    e.MapRequest? && Accepted(e.reply, e.frame) && !Known(p, e.window) ==> e.frame != e.window && !Known(p, e.frame)
  }

  /** The managed windows after an event. */
  ghost function Step(p: set<Framed>, e: Event): set<Framed> {
    match e
    case MapRequest(w, reply, frame) => if Known(p, w) || !Accepted(reply, frame) then p else p + {Framed(w, frame)}
    case Unmap(w, fromRoot, synthetic) => if fromRoot || synthetic then p else set q | q in p && q.win != w
    case Destroy(w) => set q | q in p && q.win != w && q.frame != w
    case _ => p
  }

  ghost function After(p: set<Framed>, es: seq<Event>): set<Framed> {
    if es == [] then p else Step(After(p, es[..|es| - 1]), es[|es| - 1])
  }

  /** A run in which every new frame has an identifier of its own. */
  ghost predicate OwnFrames(p: set<Framed>, es: seq<Event>) {
    Clean(p) && forall k :: 0 <= k < |es| ==> NewFrame(After(p, es[..k]), es[k])
  }

  lemma CleanStep(p: set<Framed>, e: Event)
    requires Clean(p) && NewFrame(p, e)
    ensures Clean(Step(p, e))
  {
  }

  lemma {:induction false} CleanAfter(p: set<Framed>, es: seq<Event>)
    requires OwnFrames(p, es)
    ensures Clean(After(p, es))
  {
    hide Clean, NewFrame, Step;
    if es != [] {
      var n := |es| - 1;
      var front := es[..n];
      forall k | 0 <= k < n ensures NewFrame(After(p, front[..k]), front[k]) { assert front[..k] == es[..k]; }
      CleanAfter(p, front);
      CleanStep(After(p, front), es[n]);
    }
  }

  lemma OwnFramesPrefix(p: set<Framed>, es: seq<Event>, n: nat)
    requires OwnFrames(p, es) && n <= |es|
    ensures OwnFrames(p, es[..n])
  {
    hide Clean, NewFrame, After;
    forall k | 0 <= k < n ensures NewFrame(After(p, es[..n][..k]), es[..n][k]) { assert es[..n][..k] == es[..k]; }
  }

  lemma AfterNext(p: set<Framed>, es: seq<Event>, k: nat)
    requires k < |es|
    ensures After(p, es[..k + 1]) == Step(After(p, es[..k]), es[k])
  {
    hide Step;
    assert es[..k + 1][..k] == es[..k];
  }

  // ---- the windows there at startup ----

  ghost predicate Adoptable(c: Child) {
    c.viewable && Accepted(c.reply, c.frame)
  }

  /** The windows that are taken over, the last first. */
  ghost function Adopted(children: seq<Child>): seq<Child> {
    if children == [] then []
    else
      var last := children[|children| - 1];
      (if Adoptable(last) then [last] else []) + Adopted(children[..|children| - 1])
  }

  ghost function AtStart(children: seq<Child>): set<Framed> {
    set c | c in Adopted(children) :: Framed(c.window, c.frame)
  }

  // ---- what a run means for one window ----

  /** Does the event ask for this window to be mapped? */
  ghost predicate Maps(e: Event, w: Window) {
    e.MapRequest? && e.window == w
  }

  /** Does the event take this window away? */
  ghost predicate Takes(e: Event, q: Framed) {
    (e.Destroy? && (e.window == q.win || e.window == q.frame)) || (e.Unmap? && e.window == q.win && !e.fromRoot && !e.synthetic)
  }

  /** Once a window has been destroyed, or withdrawn by its client, it is not managed until it asks to be mapped again. */
  lemma {:induction false} GoneUntilMapped(p: set<Framed>, es: seq<Event>, k: nat, w: Window)
    requires k < |es| && (es[k] == Destroy(w) || es[k] == Unmap(w, false, false))
    requires forall j :: k < j < |es| ==> !Maps(es[j], w)
    ensures forall q :: q in After(p, es) ==> q.win != w
    decreases |es|
  {
    var n := |es| - 1;
    if k < n { GoneUntilMapped(p, es[..n], k, w); }
  }

  /** A window that has been accepted stays managed, in its frame, until an event takes it away. */
  lemma {:induction false} StaysUntilTaken(p: set<Framed>, es: seq<Event>, k: nat, q: Framed)
    requires k <= |es| && q in After(p, es[..k]) && forall j :: k <= j < |es| ==> !Takes(es[j], q)
    ensures q in After(p, es)
    decreases |es|
  {
    if k == |es| {
      assert es[..k] == es;
    } else {
      var n := |es| - 1;
      assert es[..n][..k] == es[..k];
      StaysUntilTaken(p, es[..n], k, q);
    }
  }

  /** Nothing is managed that was not there or did not ask to be mapped. */
  lemma {:induction false} CameByRequest(p: set<Framed>, es: seq<Event>, q: Framed)
    requires q in After(p, es)
    ensures q in p || exists k :: 0 <= k < |es| && Maps(es[k], q.win) && es[k].frame == q.frame && Accepted(es[k].reply, q.frame)
    decreases |es|
  {
    if es != [] {
      var n := |es| - 1;
      if q in After(p, es[..n]) {
        CameByRequest(p, es[..n], q);
        if q !in p {
          var k :| 0 <= k < n && Maps(es[..n][k], q.win) && es[..n][k].frame == q.frame && Accepted(es[..n][k].reply, q.frame);
          assert Maps(es[k], q.win);
        }
      } else {
        assert Maps(es[n], q.win);
      }
    }
  }
}
