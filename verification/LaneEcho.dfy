/**
 The lane and the outbound buffer together: an operation sent from this browser stays on the
 timeline over loads started at any time, until the server's echo of it takes over.
 */
module LaneEcho {
  import opened Wrappers
  import opened Projection
  import opened Log
  import opened LaneHook
  import opened LaneNoLoss
  import LocalOutbound

  function ConversationOf(o: Origin): string {
    match o
    case DirectOrigin(chatId, _, _) => chatId
    case GroupOrigin(groupId, _, _, _, _, _) => groupId
  }

  function KeyOfSent(p: Operation): string {
    LocalOutbound.ProjectionKey(p.messageId, p.revision)
  }

  /** Besides the two: what each load in flight has read of the buffer, once it has. */
  datatype Joint = Joint(hook: Hook, outbound: LocalOutbound.Outbound, gathered: map<nat, seq<Operation>>)

  /** A load reads the buffer after it has decrypted what it fetched, and resolves with both. */
  datatype JointEvent =
    | Hooked(e: Event)
    | Published(p: Operation)
    | Echoed(echo: LocalOutbound.Echo)
    | Gathered(ticket: nat)
    | Resolved(ticket: nat, fetched: seq<Operation>)

  const START: Joint := Joint(INITIAL, LocalOutbound.EMPTY, map[])

  /** The listing of the buffer for one conversation. */
  function BufferedFor(items: seq<LocalOutbound.Buffered>, conversationId: string): seq<Operation> {
    if items == [] then []
    else
      var rest := BufferedFor(items[1..], conversationId);
      if ConversationOf(items[0].projection.origin) == conversationId then [items[0].projection] + rest else rest
  }

  /** What the hook sees of the event. */
  function EventOf(j: Joint, ev: JointEvent): Option<Event> {
    match ev
    case Hooked(e) => if e.LoadResolved? || e.LocalEcho? then None else Some(e)
    case Published(p) =>
      if KeyOfSent(p) in j.outbound.resolved || j.hook.active.None? ||
         ConversationOf(p.origin) != j.hook.active.value.conversationId
      then None
      else Some(LocalEcho(p))
    case Resolved(t, fetched) => if t in j.gathered then Some(LoadResolved(t, fetched + j.gathered[t])) else None
    case _ => None
  }

  function OutboundAfter(o: LocalOutbound.Outbound, ev: JointEvent): LocalOutbound.Outbound {
    match ev
    case Published(p) => LocalOutbound.Publish(o, p)
    case Echoed(echo) => LocalOutbound.DiscardOne(o, echo)
    case _ => o
  }

  function GatheredAfter(j: Joint, ev: JointEvent): map<nat, seq<Operation>> {
    match ev
    case Gathered(t) =>
      if t in j.hook.loads && t !in j.gathered
      then j.gathered[t := BufferedFor(j.outbound.buffered, j.hook.loads[t].scope.conversationId)]
      else j.gathered
    case _ => j.gathered
  }

  ghost function HookAfter(f: Flavour, j: Joint, ev: JointEvent): Hook {
    match EventOf(j, ev)
    case None => j.hook
    case Some(e) => Step(f, j.hook, e)
  }

  ghost function JointStep(f: Flavour, j: Joint, ev: JointEvent): Joint {
    Joint(HookAfter(f, j, ev), OutboundAfter(j.outbound, ev), GatheredAfter(j, ev))
  }

  ghost function JointRun(f: Flavour, j: Joint, es: seq<JointEvent>): Joint {
    if es == [] then j else JointStep(f, JointRun(f, j, es[..|es| - 1]), es[|es| - 1])
  }

  // ----- The buffer keeps what is not echoed -----

  ghost predicate IsBuffered(o: LocalOutbound.Outbound, p: Operation) {
    LocalOutbound.Buffered(KeyOfSent(p), p) in o.buffered
  }

  lemma {:induction false} SetKeepsOthers(items: seq<LocalOutbound.Buffered>, item: LocalOutbound.Buffered,
                                          b: LocalOutbound.Buffered)
    ensures item in LocalOutbound.SetItem(items, item)
    ensures b in items && b.key != item.key ==> b in LocalOutbound.SetItem(items, item)
  {
    if items != [] {
      SetKeepsOthers(items[1..], item, b);
      assert items == [items[0]] + items[1..];
    }
  }

  lemma {:induction false} DeleteKeepsOthers(items: seq<LocalOutbound.Buffered>, key: string,
                                             b: LocalOutbound.Buffered)
    ensures b in items && b.key != key ==> b in LocalOutbound.DeleteItem(items, key)
  {
    if items != [] {
      DeleteKeepsOthers(items[1..], key, b);
      assert items == [items[0]] + items[1..];
    }
  }

  /** The listing has the buffered operations of the conversation and no others. */
  lemma {:induction false} ListedExactly(items: seq<LocalOutbound.Buffered>, conversationId: string, p: Operation)
    ensures p in BufferedFor(items, conversationId) <==>
            ConversationOf(p.origin) == conversationId && exists b :: b in items && b.projection == p
  {
    if items != [] {
      ListedExactly(items[1..], conversationId, p);
      assert items == [items[0]] + items[1..];
      if items[0].projection == p { assert items[0] in items; }
    }
  }

  /** The scope stays open, nothing echoes the operation, and its key is not used for another. */
  predicate Stays(ev: JointEvent, k: Scope, p: Operation) {
    match ev
    case Hooked(e) => e.ScopeChanged? ==> e.next == Some(k)
    case Published(q) => KeyOfSent(q) == KeyOfSent(p) ==> q == p
    case Echoed(echo) =>
      LocalOutbound.IsNamed(echo) ==> LocalOutbound.ProjectionKey(echo.messageId, echo.revision) != KeyOfSent(p)
    case _ => true
  }

  lemma StaysBuffered(o: LocalOutbound.Outbound, ev: JointEvent, k: Scope, p: Operation)
    requires IsBuffered(o, p) && Stays(ev, k, p)
    ensures IsBuffered(OutboundAfter(o, ev), p)
  {
    var b := LocalOutbound.Buffered(KeyOfSent(p), p);
    match ev
    case Published(q) => SetKeepsOthers(o.buffered, LocalOutbound.Buffered(KeyOfSent(q), q), b);
    case Echoed(echo) =>
      DeleteKeepsOthers(o.buffered, LocalOutbound.ProjectionKey(echo.messageId, echo.revision), b);
    case _ =>
  }

  // ----- What later loads carry -----

  /** Loads started at or after `bound` belong to k, and those that have read the buffer carry p. */
  ghost predicate Carried(j: Joint, k: Scope, bound: nat, p: Operation) {
    && j.hook.active == Some(k) && IsBuffered(j.outbound, p) && ConversationOf(p.origin) == k.conversationId
    && (forall t :: t in j.hook.loads && t >= bound ==> j.hook.loads[t].scope == k)
    && (forall t :: t in j.gathered && t >= bound ==> p in j.gathered[t])
  }

  lemma LoadsStayOfScope(f: Flavour, h: Hook, e: Event, k: Scope, bound: nat)
    requires h.active == Some(k) && forall t :: t in h.loads && t >= bound ==> h.loads[t].scope == k
    ensures forall t :: t in Step(f, h, e).loads && t >= bound ==> Step(f, h, e).loads[t].scope == k
    ensures (e.ScopeChanged? ==> e.next == Some(k)) ==> Step(f, h, e).active == Some(k)
  {}

  lemma CarriedStep(f: Flavour, j: Joint, ev: JointEvent, k: Scope, bound: nat, p: Operation)
    requires Carried(j, k, bound, p) && Stays(ev, k, p)
    ensures Carried(JointStep(f, j, ev), k, bound, p)
  {
    StaysBuffered(j.outbound, ev, k, p);
    if EventOf(j, ev).Some? { LoadsStayOfScope(f, j.hook, EventOf(j, ev).value, k, bound); }
    ListedExactly(j.outbound.buffered, k.conversationId, p);
  }

  lemma CarriedContinues(f: Flavour, j: Joint, ev: JointEvent, k: Scope, bound: nat, p: Operation)
    requires Carried(j, k, bound, p) && j.hook.loaded.scope == Some(k) && Stays(ev, k, p) && EventOf(j, ev).Some?
    ensures Continues(j.hook, EventOf(j, ev).value, bound, p)
  {}

  // ----- Runs -----

  ghost function OperationsOf(j: Joint, ev: JointEvent, k: Scope): set<Operation> {
    match EventOf(j, ev)
    case None => {}
    case Some(e) => OperationsFor(j.hook, e, k)
  }

  /** Everything the run hands to scope k is in D. */
  ghost predicate Within(f: Flavour, j: Joint, es: seq<JointEvent>, k: Scope, D: set<Operation>) {
    forall i :: 0 <= i < |es| ==> OperationsOf(JointRun(f, j, es[..i]), es[i], k) <= D
  }

  ghost predicate AllStay(es: seq<JointEvent>, k: Scope, p: Operation) {
    forall i :: 0 <= i < |es| ==> Stays(es[i], k, p)
  }

  ghost predicate JointOk(f: Flavour, D: set<Operation>, j: Joint, k: Scope) {
    VersionsOk(j.hook) && LoadedOk(f, j.hook.loaded, k, D) && forall t :: t in j.gathered ==> t < j.hook.nextTicket
  }

  lemma TicketsGrow(f: Flavour, h: Hook, e: Event)
    ensures Step(f, h, e).nextTicket >= h.nextTicket
  {}

  lemma JointStepOk(f: Flavour, D: set<Operation>, j: Joint, ev: JointEvent, k: Scope)
    requires WellFormed(D) && JointOk(f, D, j, k) && OperationsOf(j, ev, k) <= D
    ensures JointOk(f, D, JointStep(f, j, ev), k)
  {
    if EventOf(j, ev).Some? {
      var e := EventOf(j, ev).value;
      VersionsStep(f, j.hook, e);
      StepIsolated(f, j.hook, e, k, D);
      TicketsGrow(f, j.hook, e);
    }
  }

  lemma WithinFront(f: Flavour, j: Joint, es: seq<JointEvent>, k: Scope, D: set<Operation>)
    requires es != [] && Within(f, j, es, k, D)
    ensures Within(f, j, es[..|es| - 1], k, D)
    ensures OperationsOf(JointRun(f, j, es[..|es| - 1]), es[|es| - 1], k) <= D
  {
    var front := es[..|es| - 1];
    forall i | 0 <= i < |front| ensures OperationsOf(JointRun(f, j, front[..i]), front[i], k) <= D {
      assert front[..i] == es[..i] && front[i] == es[i];
    }
  }

  lemma {:induction false} JointReachable(f: Flavour, D: set<Operation>, es: seq<JointEvent>, k: Scope)
    requires WellFormed(D) && Within(f, START, es, k, D)
    ensures JointOk(f, D, JointRun(f, START, es), k)
  {
    if es != [] {
      var front := es[..|es| - 1];
      WithinFront(f, START, es, k, D);
      JointReachable(f, D, front, k);
      JointStepOk(f, D, JointRun(f, START, front), es[|es| - 1], k);
    }
  }

  ghost predicate EverFull(f: Flavour, D: set<Operation>, j: Joint, es: seq<JointEvent>, k: Scope, p: Operation) {
    exists i :: 0 <= i <= |es| && PushedOut(f, D, JointRun(f, j, es[..i]).hook, k, p)
  }

  lemma FullInFront(f: Flavour, D: set<Operation>, j: Joint, es: seq<JointEvent>, k: Scope, p: Operation)
    requires es != []
    ensures EverFull(f, D, j, es[..|es| - 1], k, p) || PushedOut(f, D, JointRun(f, j, es).hook, k, p) ==>
              EverFull(f, D, j, es, k, p)
  {
    var front := es[..|es| - 1];
    assert es[..|es|] == es;
    if EverFull(f, D, j, front, k, p) {
      var i :| 0 <= i <= |front| && PushedOut(f, D, JointRun(f, j, front[..i]).hook, k, p);
      assert front[..i] == es[..i];
    }
  }

  /** One event of the two together keeps the operation on the timeline or fills the window. */
  lemma ShownJointly(f: Flavour, D: set<Operation>, j: Joint, ev: JointEvent, k: Scope, bound: nat, p: Operation)
    requires WellFormed(D) && OperationsOf(j, ev, k) <= D && Stays(ev, k, p)
    requires Staying(f, D, j.hook, k, bound) && Carried(j, k, bound, p)
    ensures Staying(f, D, JointStep(f, j, ev).hook, k, bound)
    ensures Shown(f, D, j.hook, p) ==>
              Shown(f, D, JointStep(f, j, ev).hook, p) || PushedOut(f, D, JointStep(f, j, ev).hook, k, p)
  {
    if EventOf(j, ev).Some? {
      var e := EventOf(j, ev).value;
      CarriedContinues(f, j, ev, k, bound, p);
      StayingStep(f, D, j.hook, e, k, bound, p);
      if Shown(f, D, j.hook, p) { ShownStep(f, D, j.hook, e, k, bound, p); }
    }
  }

  lemma {:induction false} SentStaysShown(f: Flavour, D: set<Operation>, j: Joint, es: seq<JointEvent>, k: Scope,
                                          bound: nat, p: Operation)
    requires WellFormed(D) && Within(f, j, es, k, D) && AllStay(es, k, p)
    requires Staying(f, D, j.hook, k, bound) && Carried(j, k, bound, p)
    requires Shown(f, D, j.hook, p) || PushedOut(f, D, j.hook, k, p)
    ensures var last := JointRun(f, j, es);
            Staying(f, D, last.hook, k, bound) && Carried(last, k, bound, p) &&
            (Shown(f, D, last.hook, p) || EverFull(f, D, j, es, k, p))
  {
    if es == [] {
      assert es[..0] == es;
    } else {
      var front, ev := es[..|es| - 1], es[|es| - 1];
      var before := JointRun(f, j, front);
      WithinFront(f, j, es, k, D);
      assert AllStay(front, k, p);
      SentStaysShown(f, D, j, front, k, bound, p);
      ShownJointly(f, D, before, ev, k, bound, p);
      CarriedStep(f, before, ev, k, bound, p);
      FullInFront(f, D, j, es, k, p);
    }
  }

  lemma SentIsCarried(f: Flavour, D: set<Operation>, j: Joint, k: Scope, p: Operation)
    requires WellFormed(D) && JointOk(f, D, j, k) && j.hook.active == Some(k) && p in D
    requires ConversationOf(p.origin) == k.conversationId && KeyOfSent(p) !in j.outbound.resolved
    ensures var next := JointStep(f, j, Published(p));
            && Staying(f, D, next.hook, k, j.hook.nextTicket) && Carried(next, k, j.hook.nextTicket, p)
            && (Shown(f, D, next.hook, p) || PushedOut(f, D, next.hook, k, p))
  {
    UpdateIsApplied(f, D, j.hook, LocalEcho(p), k, p);
    SetKeepsOthers(j.outbound.buffered, LocalOutbound.Buffered(KeyOfSent(p), p),
                   LocalOutbound.Buffered(KeyOfSent(p), p));
  }

  /**
   From any reachable state: an operation sent into the open conversation is on the timeline after
   every continuation that stays there and does not echo it, loads started later included, unless
   at some moment since then a full window of newer entries displaced it.
   */
  lemma SentSurvivesLoads(f: Flavour, D: set<Operation>, before: seq<JointEvent>, p: Operation,
                          after: seq<JointEvent>, k: Scope)
    requires WellFormed(D) && p in D && Within(f, START, before, k, D)
    requires var j := JointRun(f, START, before);
             && j.hook.active == Some(k) && ConversationOf(p.origin) == k.conversationId
             && KeyOfSent(p) !in j.outbound.resolved
             && Within(f, JointStep(f, j, Published(p)), after, k, D) && AllStay(after, k, p)
    ensures var sent := JointStep(f, JointRun(f, START, before), Published(p));
            Shown(f, D, JointRun(f, sent, after).hook, p) || EverFull(f, D, sent, after, k, p)
  {
    var j := JointRun(f, START, before);
    JointReachable(f, D, before, k);
    SentIsCarried(f, D, j, k, p);
    SentStaysShown(f, D, JointStep(f, j, Published(p)), after, k, j.hook.nextTicket, p);
  }
}
