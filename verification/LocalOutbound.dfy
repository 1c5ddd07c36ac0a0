/**
 The buffer of locally sent operations that the server has not echoed yet, and the bounded FIFO
 of keys already echoed (apps/web/src/chats/encrypted-v2-local-outbound.ts and
 apps/web/src/groups/encrypted-group-local-outbound.ts, which differ in names only).
 */
module LocalOutbound {
  import opened Projection
  import Text

  const RESOLVED_LIMIT: nat := 200

  /** A server-backed operation, as the discard call names it. */
  datatype Echo = Echo(conversationId: string, messageId: string, revision: nat)

  datatype Buffered = Buffered(key: string, projection: Operation)

  /** Two JavaScript Maps, both in order of first insertion; the second only for its keys. */
  datatype Outbound = Outbound(buffered: seq<Buffered>, resolved: seq<string>)

  const EMPTY: Outbound := Outbound([], [])

  function ProjectionKey(messageId: string, revision: nat): string {
    messageId + ":" + Text.Digits(revision)
  }

  lemma ProjectionKeyInjective(id: string, revision: nat, id2: string, revision2: nat)
    requires ProjectionKey(id, revision) == ProjectionKey(id2, revision2)
    ensures id == id2 && revision == revision2
  {
    LastColonSplits(id, Text.Digits(revision), id2, Text.Digits(revision2));
    Text.NumberOfDigits(revision);
    Text.NumberOfDigits(revision2);
  }

  predicate HasKey(items: seq<Buffered>, key: string) {
    exists i :: 0 <= i < |items| && items[i].key == key
  }

  /** Map.set */
  function SetItem(items: seq<Buffered>, item: Buffered): seq<Buffered> {
    if items == [] then [item]
    else if items[0].key == item.key then [item] + items[1..]
    else [items[0]] + SetItem(items[1..], item)
  }

  /** Map.delete */
  function DeleteItem(items: seq<Buffered>, key: string): seq<Buffered> {
    if items == [] then []
    else if items[0].key == key then items[1..]
    else [items[0]] + DeleteItem(items[1..], key)
  }

  function Trimmed(resolved: seq<string>): (r: seq<string>)
    ensures |r| <= RESOLVED_LIMIT
    ensures r == if |resolved| <= RESOLVED_LIMIT then resolved else resolved[|resolved| - RESOLVED_LIMIT..]
  {
    if |resolved| <= RESOLVED_LIMIT then resolved else Trimmed(resolved[1..])
  }

  function Publish(st: Outbound, p: Operation): Outbound {
    var key := ProjectionKey(p.messageId, p.revision);
    if key in st.resolved then st else st.(buffered := SetItem(st.buffered, Buffered(key, p)))
  }

  predicate IsNamed(e: Echo) {
    Text.Trim(e.conversationId) != "" && Text.Trim(e.messageId) != ""
  }

  function DiscardOne(st: Outbound, e: Echo): Outbound {
    if !IsNamed(e) then st
    else
      var key := ProjectionKey(e.messageId, e.revision);
      Outbound(DeleteItem(st.buffered, key), if key in st.resolved then st.resolved else Trimmed(st.resolved + [key]))
  }

  function Discard(st: Outbound, es: seq<Echo>): Outbound {
    if es == [] then st else DiscardOne(Discard(st, es[..|es| - 1]), es[|es| - 1])
  }

  // ----- The module-level state, updated in place -----

  class OutboundBuffer {
    var buffered: seq<Buffered>
    var resolved: seq<string>

    ghost predicate Valid()
      reads this
    {
      IsOk(State())
    }

    ghost function State(): Outbound
      reads this
    {
      Outbound(buffered, resolved)
    }

    constructor ()
      ensures State() == EMPTY && Valid()
    {
      buffered, resolved := [], [];
    }

    /** Reports whether listeners are notified. */
    method PublishProjection(p: Operation) returns (notify: bool)
      requires Valid()
      modifies this
      ensures Valid() && State() == Publish(old(State()), p)
      ensures notify <==> ProjectionKey(p.messageId, p.revision) !in old(resolved)
      ensures notify ==> HasKey(buffered, ProjectionKey(p.messageId, p.revision))
    {
      PublishKeepsOk(State(), p);
      var key := ProjectionKey(p.messageId, p.revision);
      if key in resolved { return false; }
      SetItemKeys(buffered, Buffered(key, p));
      buffered := SetItem(buffered, Buffered(key, p));
      return true;
    }

    method DiscardEchoed(values: seq<Echo>)
      requires Valid()
      modifies this
      ensures Valid() && State() == Discard(old(State()), values)
    {
      var i := 0;
      while i < |values|
        invariant 0 <= i <= |values|
        invariant State() == Discard(old(State()), values[..i]) && Valid()
      {
        assert values[..i + 1][..i] == values[..i];
        var value := values[i];
        DiscardKeepsOk(State(), value);
        if IsNamed(value) {
          var key := ProjectionKey(value.messageId, value.revision);
          buffered := DeleteItem(buffered, key);
          if key !in resolved {
            resolved := resolved + [key];
            ghost var full, kept := resolved, buffered;
            while |resolved| > RESOLVED_LIMIT
              invariant Trimmed(resolved) == Trimmed(full) && buffered == kept
            {
              resolved := resolved[1..];
            }
          } else {
            assert |resolved| <= RESOLVED_LIMIT;
          }
        }
        i := i + 1;
      }
      assert values[..i] == values;
    }
  }

  // ----- The invariant -----

  ghost predicate Distinct(s: seq<string>) {
    forall i, j :: 0 <= i < j < |s| ==> s[i] != s[j]
  }

  ghost predicate KeysDistinct(items: seq<Buffered>) {
    forall i, j :: 0 <= i < j < |items| ==> items[i].key != items[j].key
  }

  /** One entry per key, bounded memory, and nothing both waiting for its echo and echoed. */
  ghost predicate IsOk(st: Outbound) {
    && Distinct(st.resolved) && |st.resolved| <= RESOLVED_LIMIT && KeysDistinct(st.buffered)
    && forall k :: k in st.resolved ==> !HasKey(st.buffered, k)
  }

  lemma {:induction false} SetItemKeys(items: seq<Buffered>, item: Buffered)
    ensures forall k :: HasKey(SetItem(items, item), k) <==> HasKey(items, k) || k == item.key
    ensures KeysDistinct(items) ==> KeysDistinct(SetItem(items, item))
  {
    if items != [] {
      var rest, r := items[1..], SetItem(items, item);
      SetItemKeys(rest, item);
      forall k ensures HasKey(items, k) <==> items[0].key == k || HasKey(rest, k) {
        HasKeyCons(items, k);
      }
      forall k ensures HasKey(r, k) <==> r[0].key == k || HasKey(r[1..], k) {
        HasKeyCons(r, k);
      }
      if items[0].key == item.key {
        assert r[1..] == rest;
      } else {
        assert r[1..] == SetItem(rest, item);
        if KeysDistinct(items) {
          DistinctTail(items);
          ConsDistinct(r);
        }
      }
    } else {
      assert SetItem(items, item)[0].key == item.key;
    }
  }

  lemma HasKeyCons(items: seq<Buffered>, k: string)
    requires items != []
    ensures HasKey(items, k) <==> items[0].key == k || HasKey(items[1..], k)
  {
    if HasKey(items[1..], k) {
      var i :| 0 <= i < |items[1..]| && items[1..][i].key == k;
      assert items[i + 1].key == k;
    }
    if HasKey(items, k) {
      var i :| 0 <= i < |items| && items[i].key == k;
      if i > 0 { assert items[1..][i - 1].key == k; }
    }
  }

  lemma DistinctTail(items: seq<Buffered>)
    requires items != [] && KeysDistinct(items)
    ensures KeysDistinct(items[1..]) && !HasKey(items[1..], items[0].key)
  {
    assert forall i :: 0 <= i < |items[1..]| ==> items[1..][i] == items[i + 1];
  }

  lemma ConsDistinct(items: seq<Buffered>)
    requires items != [] && KeysDistinct(items[1..]) && !HasKey(items[1..], items[0].key)
    ensures KeysDistinct(items)
  {
    forall i, j | 0 <= i < j < |items| ensures items[i].key != items[j].key {
      assert items[j] == items[1..][j - 1];
      if i > 0 { assert items[i] == items[1..][i - 1]; }
    }
  }

  lemma {:induction false} DeleteItemKeys(items: seq<Buffered>, key: string)
    requires KeysDistinct(items)
    ensures KeysDistinct(DeleteItem(items, key))
    ensures forall k :: HasKey(DeleteItem(items, key), k) <==> HasKey(items, k) && k != key
  {
    if items != [] {
      var rest, r := items[1..], DeleteItem(items, key);
      DistinctTail(items);
      DeleteItemKeys(rest, key);
      forall k ensures HasKey(items, k) <==> items[0].key == k || HasKey(rest, k) {
        HasKeyCons(items, k);
      }
      if items[0].key != key {
        assert r[1..] == DeleteItem(rest, key);
        forall k ensures HasKey(r, k) <==> r[0].key == k || HasKey(r[1..], k) {
          HasKeyCons(r, k);
        }
        ConsDistinct(r);
      }
    }
  }

  lemma PublishKeepsOk(st: Outbound, p: Operation)
    requires IsOk(st)
    ensures IsOk(Publish(st, p))
  {
    SetItemKeys(st.buffered, Buffered(ProjectionKey(p.messageId, p.revision), p));
  }

  lemma TrimmedKeepsDistinct(resolved: seq<string>, key: string)
    requires Distinct(resolved) && |resolved| <= RESOLVED_LIMIT && key !in resolved
    ensures Distinct(Trimmed(resolved + [key])) && |Trimmed(resolved + [key])| <= RESOLVED_LIMIT
    ensures forall k :: k in Trimmed(resolved + [key]) ==> k in resolved || k == key
  {}

  lemma DiscardKeepsOk(st: Outbound, e: Echo)
    requires IsOk(st)
    ensures IsOk(DiscardOne(st, e))
  {
    var key := ProjectionKey(e.messageId, e.revision);
    DeleteItemKeys(st.buffered, key);
    if key !in st.resolved { TrimmedKeepsDistinct(st.resolved, key); }
  }

  // ----- Runs -----

  datatype Event = Published(p: Operation) | Echoed(e: Echo)

  function StepOf(st: Outbound, e: Event): Outbound {
    match e
    case Published(p) => Publish(st, p)
    case Echoed(echo) => DiscardOne(st, echo)
  }

  function Run(st: Outbound, es: seq<Event>): Outbound {
    if es == [] then st else StepOf(Run(st, es[..|es| - 1]), es[|es| - 1])
  }

  predicate ResolvesNew(st: Outbound, e: Event) {
    e.Echoed? && IsNamed(e.e) && ProjectionKey(e.e.messageId, e.e.revision) !in st.resolved
  }

  /** How many keys the run resolves that were not resolved at that moment. */
  function NewlyResolved(st: Outbound, es: seq<Event>): nat {
    if es == [] then 0
    else NewlyResolved(st, es[..|es| - 1]) + if ResolvesNew(Run(st, es[..|es| - 1]), es[|es| - 1]) then 1 else 0
  }

  lemma {:induction false} RunKeepsOk(st: Outbound, es: seq<Event>)
    requires IsOk(st)
    ensures IsOk(Run(st, es))
  {
    if es != [] {
      var before, e := Run(st, es[..|es| - 1]), es[|es| - 1];
      RunKeepsOk(st, es[..|es| - 1]);
      match e
      case Published(p) => PublishKeepsOk(before, p);
      case Echoed(echo) => DiscardKeepsOk(before, echo);
    }
  }

  /** The key has `age` newer keys behind it in the FIFO. */
  ghost predicate HasAge(resolved: seq<string>, key: string, age: nat) {
    age < |resolved| && resolved[|resolved| - 1 - age] == key
  }

  /** At most the oldest key goes. */
  function WithNewest(resolved: seq<string>, newest: string): seq<string> {
    if |resolved| < RESOLVED_LIMIT then resolved + [newest] else (resolved + [newest])[1..]
  }

  lemma TrimmedOne(resolved: seq<string>, newest: string)
    requires |resolved| <= RESOLVED_LIMIT
    ensures Trimmed(resolved + [newest]) == WithNewest(resolved, newest)
  {}

  lemma AgeGrows(resolved: seq<string>, newest: string, key: string, age: nat)
    requires |resolved| <= RESOLVED_LIMIT && HasAge(resolved, key, age) && age + 1 < RESOLVED_LIMIT
    ensures HasAge(WithNewest(resolved, newest), key, age + 1)
  {
    var full := resolved + [newest];
    assert full[|full| - 2 - age] == key;
  }

  lemma OldestGoes(resolved: seq<string>, newest: string, key: string)
    requires Distinct(resolved) && |resolved| == RESOLVED_LIMIT && resolved[0] == key && newest !in resolved
    ensures key !in WithNewest(resolved, newest)
  {
    var after := WithNewest(resolved, newest);
    forall i | 0 <= i < |after| ensures after[i] != key {
      assert after[i] == (resolved + [newest])[i + 1];
    }
  }

  lemma AgeStep(st: Outbound, e: Event, key: string, age: nat)
    requires IsOk(st) && HasAge(st.resolved, key, age)
    ensures !ResolvesNew(st, e) ==> HasAge(StepOf(st, e).resolved, key, age)
    ensures ResolvesNew(st, e) && age + 1 < RESOLVED_LIMIT ==> HasAge(StepOf(st, e).resolved, key, age + 1)
    ensures ResolvesNew(st, e) && age + 1 == RESOLVED_LIMIT ==> key !in StepOf(st, e).resolved
  {
    if ResolvesNew(st, e) {
      var newest := ProjectionKey(e.e.messageId, e.e.revision);
      TrimmedOne(st.resolved, newest);
      if age + 1 < RESOLVED_LIMIT {
        AgeGrows(st.resolved, newest, key, age);
      } else {
        OldestGoes(st.resolved, newest, key);
      }
    }
  }

  /**
   A key just resolved stays blocked while fewer than 200 further keys are newly resolved, sitting
   at the place its age says, and publishing it again in that time changes nothing.
   */
  lemma {:induction false} BlocksForNext199(st: Outbound, es: seq<Event>, key: string)
    requires IsOk(st) && HasAge(st.resolved, key, 0)
    requires NewlyResolved(st, es) < 200
    ensures HasAge(Run(st, es).resolved, key, NewlyResolved(st, es))
    ensures forall p: Operation ::
              ProjectionKey(p.messageId, p.revision) == key ==> Publish(Run(st, es), p) == Run(st, es)
  {
    if es != [] {
      BlocksForNext199(st, es[..|es| - 1], key);
      RunKeepsOk(st, es[..|es| - 1]);
      AgeStep(Run(st, es[..|es| - 1]), es[|es| - 1], key, NewlyResolved(st, es[..|es| - 1]));
    }
    assert key in Run(st, es).resolved;
  }

  /** The 200th newly resolved key is the one that unblocks it. */
  lemma UnblockedByThe200th(st: Outbound, es: seq<Event>, e: Event, key: string)
    requires IsOk(st) && HasAge(st.resolved, key, 0)
    requires NewlyResolved(st, es) == 199 && ResolvesNew(Run(st, es), e)
    ensures key !in Run(st, es + [e]).resolved
  {
    BlocksForNext199(st, es, key);
    RunKeepsOk(st, es);
    AgeStep(Run(st, es), e, key, RESOLVED_LIMIT - 1);
    assert (es + [e])[..|es|] == es;
  }

  // ----- What is in the buffer -----

  lemma {:induction false} SetItemExactly(items: seq<Buffered>, item: Buffered, b: Buffered)
    requires KeysDistinct(items)
    ensures b in SetItem(items, item) <==> b == item || (b in items && b.key != item.key)
  {
    if items != [] {
      assert items == [items[0]] + items[1..];
      DistinctTail(items);
      SetItemExactly(items[1..], item, b);
    }
  }

  lemma {:induction false} DeleteItemExactly(items: seq<Buffered>, key: string, b: Buffered)
    requires KeysDistinct(items)
    ensures b in DeleteItem(items, key) <==> b in items && b.key != key
  {
    if items != [] {
      assert items == [items[0]] + items[1..];
      DistinctTail(items);
      DeleteItemExactly(items[1..], key, b);
    }
  }

  /** Publishing buffers the operation in place of an older copy, unless its echo was seen. */
  lemma PublishExactly(st: Outbound, p: Operation, b: Buffered)
    requires IsOk(st)
    ensures var key, after := ProjectionKey(p.messageId, p.revision), Publish(st, p);
            && after.resolved == st.resolved
            && (key in st.resolved ==> after == st)
            && (key !in st.resolved ==>
                  (b in after.buffered <==> b == Buffered(key, p) || (b in st.buffered && b.key != key)))
  {
    SetItemExactly(st.buffered, Buffered(ProjectionKey(p.messageId, p.revision), p), b);
  }

  /**
   Once the echo of an operation is seen, its local copy is gone and cannot come back for a while, and
   every other copy stays; an echo with a blank conversation or message id is ignored.
   */
  lemma EchoEndsBuffering(st: Outbound, e: Echo, b: Buffered)
    requires IsOk(st)
    ensures var key, after := ProjectionKey(e.messageId, e.revision), DiscardOne(st, e);
            if Text.IsBlank(e.conversationId) || Text.IsBlank(e.messageId) then after == st
            else key in after.resolved && (b in after.buffered <==> b in st.buffered && b.key != key)
  {
    Text.TrimsToNothing(e.conversationId);
    Text.TrimsToNothing(e.messageId);
    DeleteItemExactly(st.buffered, ProjectionKey(e.messageId, e.revision), b);
    var full := st.resolved + [ProjectionKey(e.messageId, e.revision)];
    assert Trimmed(full)[|Trimmed(full)| - 1] == full[|full| - 1];
  }
}
