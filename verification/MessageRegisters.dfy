/**
 The declarative meaning of a message entry: every field is a last-writer register over the
 SET of mutations that reached the message. No order of arrival appears in it.
 */
module MessageRegisters {
  import opened Wrappers
  import opened ServerSequence
  import opened Projection
  import Text

  // ----- Last writers -----

  ghost predicate DistinctSequences(S: set<Operation>) {
    forall a, b :: a in S && b in S && a.sequence == b.sequence ==> a == b
  }

  ghost predicate IsLatest(u: Operation, S: set<Operation>) {
    u in S && forall v :: v in S ==> v.sequence <= u.sequence
  }

  lemma {:induction false} LatestExists(S: set<Operation>) returns (u: Operation)
    requires S != {}
    ensures IsLatest(u, S)
    decreases |S|
  {
    var x :| x in S;
    u := x;
    if S != {x} {
      assert S == {x} + (S - {x});
      var y := LatestExists(S - {x});
      if y.sequence > x.sequence { u := y; }
    }
  }

  ghost function Latest(S: set<Operation>): (u: Operation)
    requires S != {}
    ensures IsLatest(u, S)
  {
    assert exists u :: IsLatest(u, S) by { var u := LatestExists(S); }
    var u :| IsLatest(u, S); u
  }

  lemma LatestOfAdded(S: set<Operation>, u: Operation)
    requires DistinctSequences(S + {u})
    ensures Latest(S + {u}) == if S == {} || u.sequence > Latest(S).sequence then u else Latest(S)
  {
    var m := Latest(S + {u});
    assert m in S + {u} && u.sequence <= m.sequence;
    if S != {} {
      var n := Latest(S);
      assert n in S + {u} && n.sequence <= m.sequence;
    }
  }

  ghost predicate IsMaxStored(t: string, S: set<Operation>) {
    (exists u :: u in S && u.storedAt == t) && forall v :: v in S ==> Text.AtOrBefore(v.storedAt, t)
  }

  lemma {:induction false} MaxStoredExists(S: set<Operation>) returns (t: string)
    requires S != {}
    ensures IsMaxStored(t, S)
    decreases |S|
  {
    var x :| x in S;
    Text.OrderReflexive(x.storedAt);
    t := x.storedAt;
    if S != {x} {
      assert S == {x} + (S - {x});
      var s := MaxStoredExists(S - {x});
      t := MaxTimestamp(s, x.storedAt);
      MaxTimestampBounds(S - {x}, s, x);
    }
  }

  lemma MaxTimestampBounds(S: set<Operation>, s: string, x: Operation)
    requires IsMaxStored(s, S)
    ensures IsMaxStored(MaxTimestamp(s, x.storedAt), S + {x})
  {
    var t := MaxTimestamp(s, x.storedAt);
    Text.OrderTotal(s, x.storedAt);
    Text.OrderReflexive(x.storedAt);
    forall v | v in S + {x} ensures Text.AtOrBefore(v.storedAt, t) {
      if v in S && t != s { Text.OrderTransitive(v.storedAt, s, t); }
    }
    var w :| w in S && w.storedAt == s;
    assert w in S + {x} && x in S + {x};
  }

  ghost function MaxStored(S: set<Operation>): (t: string)
    requires S != {}
    ensures IsMaxStored(t, S)
  {
    assert exists t :: IsMaxStored(t, S) by { var t := MaxStoredExists(S); }
    var t :| IsMaxStored(t, S); t
  }

  lemma MaxStoredUnique(S: set<Operation>, s: string, t: string)
    requires IsMaxStored(s, S) && IsMaxStored(t, S)
    ensures s == t
  {
    Text.OrderAntisymmetric(s, t);
  }

  lemma MaxStoredOfAdded(S: set<Operation>, u: Operation)
    requires S != {}
    ensures MaxStored(S + {u}) == MaxTimestamp(MaxStored(S), u.storedAt)
  {
    MaxTimestampBounds(S, MaxStored(S), u);
    MaxStoredUnique(S + {u}, MaxStored(S + {u}), MaxTimestamp(MaxStored(S), u.storedAt));
  }

  // ----- The registers of one message -----

  ghost function Edits(M: set<Operation>): set<Operation> {
    set u | u in M && u.Ready? && u.kind.Edit?
  }

  ghost function Tombstones(M: set<Operation>): set<Operation> {
    set u | u in M && u.Ready? && u.kind.Tombstone?
  }

  /** The edits that decide the attachments: all of them, or in a group those that carry some. */
  ghost function AttachmentEdits(f: Flavour, c: Operation, M: set<Operation>): set<Operation> {
    match f
    case Direct => Edits(M)
    case Group => set u | u in Edits(M) && u.attachments.Some? && u.sequence > c.sequence
  }

  ghost function LatestOf(S: set<Operation>): Option<Operation> {
    if S == {} then None else Some(Latest(S))
  }

  function SequenceOf(u: Option<Operation>): Option<Sequence> {
    if u.None? then None else Some(u.value.sequence)
  }

  /** The entry that the last writers of the registers leave behind. */
  function Assemble(f: Flavour, c: Operation, newest: Operation, storedAt: string, edit: Option<Operation>,
                    carrier: Option<Operation>, deletion: Option<Operation>): (e: Entry)
    requires IsContent(c)
    requires edit.Some? ==> edit.value.Ready?
    requires carrier.Some? ==> carrier.value.Ready?
    requires deletion.Some? ==> deletion.value.Ready?
    ensures e.Message? && KeyOf(e) == MessageKey(c.messageId) && e.sequence == c.sequence
    ensures e.lastApplied == newest.sequence
  {
    var wording := edit.GetOr(c);
    var visible := deletion.None?;
    Message(
      c.messageId, c.origin, newest.revision, c.createdAt, c.sequence, storedAt,
      wording.replyTo, newest.sequence, SequenceOf(edit),
      if f.Direct? then None else Some(carrier.GetOr(c).sequence), SequenceOf(deletion),
      if visible then wording.text else None,
      if visible then wording.markdownPolicy else None,
      if visible then carrier.GetOr(c).attachments.GetOr([]) else [],
      if edit.None? then c.editedAt else Some(wording.editedAt.GetOr(wording.storedAt)),
      if visible then c.deletedAt else Some(deletion.value.deletedAt.GetOr(deletion.value.storedAt)),
      !visible)
  }

  /** The entry of content c after the mutations M, as a function of the set M alone. */
  ghost function Registers(f: Flavour, c: Operation, M: set<Operation>): (e: Entry)
    requires IsContent(c)
    ensures e.Message? && KeyOf(e) == MessageKey(c.messageId) && e.sequence == c.sequence
    ensures e.lastApplied >= c.sequence
  {
    Assemble(f, c, Latest(M + {c}), MaxStored(M + {c}), LatestOf(Edits(M)), LatestOf(AttachmentEdits(f, c, M)),
             LatestOf(Tombstones(M)))
  }

  ghost predicate AllMutations(M: set<Operation>) {
    forall u :: u in M ==> IsMutation(u)
  }

  lemma RegistersOfContent(f: Flavour, c: Operation)
    requires IsContent(c)
    ensures Registers(f, c, {}) == ContentEntry(f, c)
  {
    var none: set<Operation> := {};
    assert none + {c} == {c};
    assert AttachmentEdits(f, c, {}) == {} && Edits({}) == {} && Tombstones({}) == {};
  }

  function Later(register: Option<Operation>, u: Operation): Option<Operation> {
    if register.None? || u.sequence > register.value.sequence then Some(u) else register
  }

  predicate CarriesAttachments(f: Flavour, c: Operation, u: Operation)
    requires u.Ready?
  {
    u.kind.Edit? && (f.Direct? || (u.attachments.Some? && u.sequence > c.sequence))
  }

  /** A mutation moves exactly the registers it writes, each by its own comparison. */
  lemma AssembleStep(f: Flavour, c: Operation, newest: Operation, storedAt: string, edit: Option<Operation>,
                     carrier: Option<Operation>, deletion: Option<Operation>, u: Operation)
    requires IsContent(c) && IsMutation(u)
    requires edit.Some? ==> IsMutation(edit.value)
    requires deletion.Some? ==> IsMutation(deletion.value)
    requires carrier.Some? ==> IsMutation(carrier.value) && CarriesAttachments(f, c, carrier.value)
    requires f.Direct? ==> carrier == edit
    ensures ApplyMutation(f, Assemble(f, c, newest, storedAt, edit, carrier, deletion), u) ==
            Assemble(f, c, if u.sequence > newest.sequence then u else newest, MaxTimestamp(storedAt, u.storedAt),
                     if u.kind.Edit? then Later(edit, u) else edit,
                     if CarriesAttachments(f, c, u) then Later(carrier, u) else carrier,
                     if u.kind.Edit? then deletion else Later(deletion, u))
  {}

  lemma LatestOfAddedOption(S: set<Operation>, u: Operation)
    requires DistinctSequences(S + {u})
    ensures LatestOf(S + {u}) == Later(LatestOf(S), u)
  {
    LatestOfAdded(S, u);
  }

  lemma EditsOfAdded(M: set<Operation>, u: Operation)
    requires IsMutation(u) && DistinctSequences(M + {u})
    ensures LatestOf(Edits(M + {u})) == if u.kind.Edit? then Later(LatestOf(Edits(M)), u) else LatestOf(Edits(M))
  {
    if u.kind.Edit? {
      assert Edits(M + {u}) == Edits(M) + {u};
      LatestOfAddedOption(Edits(M), u);
    } else {
      assert Edits(M + {u}) == Edits(M);
    }
  }

  lemma TombstonesOfAdded(M: set<Operation>, u: Operation)
    requires IsMutation(u) && DistinctSequences(M + {u})
    ensures LatestOf(Tombstones(M + {u})) ==
            if u.kind.Edit? then LatestOf(Tombstones(M)) else Later(LatestOf(Tombstones(M)), u)
  {
    if u.kind.Edit? {
      assert Tombstones(M + {u}) == Tombstones(M);
    } else {
      assert Tombstones(M + {u}) == Tombstones(M) + {u};
      LatestOfAddedOption(Tombstones(M), u);
    }
  }

  lemma CarriersOfAdded(f: Flavour, c: Operation, M: set<Operation>, u: Operation)
    requires IsMutation(u) && DistinctSequences(M + {u})
    ensures LatestOf(AttachmentEdits(f, c, M + {u})) ==
            if CarriesAttachments(f, c, u) then Later(LatestOf(AttachmentEdits(f, c, M)), u)
            else LatestOf(AttachmentEdits(f, c, M))
  {
    if CarriesAttachments(f, c, u) {
      assert AttachmentEdits(f, c, M + {u}) == AttachmentEdits(f, c, M) + {u};
      LatestOfAddedOption(AttachmentEdits(f, c, M), u);
    } else {
      assert AttachmentEdits(f, c, M + {u}) == AttachmentEdits(f, c, M);
    }
  }

  lemma RegistersOfAdded(f: Flavour, c: Operation, M: set<Operation>, u: Operation)
    requires IsContent(c) && IsMutation(u) && DistinctSequences(M + {c, u})
    ensures Registers(f, c, M + {u}) ==
            Assemble(f, c, Latest(M + {c, u}), MaxStored(M + {c, u}),
                     if u.kind.Edit? then Later(LatestOf(Edits(M)), u) else LatestOf(Edits(M)),
                     if CarriesAttachments(f, c, u) then Later(LatestOf(AttachmentEdits(f, c, M)), u)
                     else LatestOf(AttachmentEdits(f, c, M)),
                     if u.kind.Edit? then LatestOf(Tombstones(M)) else Later(LatestOf(Tombstones(M)), u))
  {
    assert M + {u} + {c} == M + {c, u};
    EditsOfAdded(M, u);
    TombstonesOfAdded(M, u);
    CarriersOfAdded(f, c, M, u);
  }

  lemma RegisterKinds(f: Flavour, c: Operation, M: set<Operation>)
    requires AllMutations(M)
    ensures LatestOf(Edits(M)).Some? ==> IsMutation(LatestOf(Edits(M)).value)
    ensures LatestOf(Tombstones(M)).Some? ==> IsMutation(LatestOf(Tombstones(M)).value)
    ensures LatestOf(AttachmentEdits(f, c, M)).Some? ==>
              IsMutation(LatestOf(AttachmentEdits(f, c, M)).value) &&
              CarriesAttachments(f, c, LatestOf(AttachmentEdits(f, c, M)).value)
    ensures f.Direct? ==> LatestOf(AttachmentEdits(f, c, M)) == LatestOf(Edits(M))
  {}

  /** One mutation moves every register exactly as adding it to the set does. */
  lemma RegistersStep(f: Flavour, c: Operation, M: set<Operation>, u: Operation)
    requires IsContent(c) && IsMutation(u) && AllMutations(M)
    requires DistinctSequences(M + {c, u})
    ensures ApplyMutation(f, Registers(f, c, M), u) == Registers(f, c, M + {u})
  {
    assert M + {c} + {u} == M + {c, u};
    LatestOfAdded(M + {c}, u);
    MaxStoredOfAdded(M + {c}, u);
    RegistersOfAdded(f, c, M, u);
    RegisterKinds(f, c, M);
    AssembleStep(f, c, Latest(M + {c}), MaxStored(M + {c}), LatestOf(Edits(M)), LatestOf(AttachmentEdits(f, c, M)),
                 LatestOf(Tombstones(M)), u);
  }

  function ApplyMutations(f: Flavour, t: Entry, us: seq<Operation>): (e: Entry)
    requires t.Message? && forall i :: 0 <= i < |us| ==> IsMutation(us[i])
    ensures e.Message?
  {
    if us == [] then t else ApplyMutation(f, ApplyMutations(f, t, us[..|us| - 1]), us[|us| - 1])
  }

  /** Any order and any repetition of the mutations gives the registers of their set. */
  lemma {:induction false} RegisterRefinement(f: Flavour, c: Operation, us: seq<Operation>)
    requires IsContent(c) && forall i :: 0 <= i < |us| ==> IsMutation(us[i])
    requires DistinctSequences((set u | u in us) + {c})
    ensures ApplyMutations(f, ContentEntry(f, c), us) == Registers(f, c, set u | u in us)
  {
    var M := set u | u in us;
    if us == [] {
      RegistersOfContent(f, c);
      assert M == {};
    } else {
      var front, u := us[..|us| - 1], us[|us| - 1];
      var N := set v | v in front;
      assert us == front + [u] && M == N + {u} && N + {c, u} == M + {c};
      RegisterRefinement(f, c, front);
      RegistersStep(f, c, N, u);
      ApplyLast(f, ContentEntry(f, c), us);
    }
  }

  lemma ApplyLast(f: Flavour, t: Entry, us: seq<Operation>)
    requires us != [] && t.Message? && forall i :: 0 <= i < |us| ==> IsMutation(us[i])
    ensures ApplyMutations(f, t, us) == ApplyMutation(f, ApplyMutations(f, t, us[..|us| - 1]), us[|us| - 1])
  {}

  predicate IsCleared(e: Entry)
    requires e.Message?
  {
    e.isTombstone && e.text.None? && e.markdownPolicy.None? && e.attachments == [] && e.tombstone.Some?
  }

  /** A tombstone is absorbing: wherever it comes among the mutations, and whatever their sequences. */
  lemma {:induction false} TombstoneIsTerminal(f: Flavour, t: Entry, us: seq<Operation>, d: Operation)
    requires t.Message? && (forall i :: 0 <= i < |us| ==> IsMutation(us[i]))
    requires d in us && d.Ready? && d.kind.Tombstone?
    ensures var e := ApplyMutations(f, t, us);
            IsCleared(e) && e.tombstone.value >= d.sequence
  {
    var front, u := us[..|us| - 1], us[|us| - 1];
    assert us == front + [u];
    if d in front {
      TombstoneIsTerminal(f, t, front, d);
      ClearedStays(f, ApplyMutations(f, t, front), u);
    } else {
      assert u == d;
    }
  }

  lemma ClearedStays(f: Flavour, e: Entry, u: Operation)
    requires e.Message? && IsCleared(e) && IsMutation(u)
    ensures var next := ApplyMutation(f, e, u); IsCleared(next) && next.tombstone.value >= e.tombstone.value
  {}

  /** An operation applied twice changes nothing the second time. */
  lemma RepeatedMutation(f: Flavour, c: Operation, M: set<Operation>, u: Operation)
    requires IsContent(c) && AllMutations(M) && u in M
    requires DistinctSequences(M + {c})
    ensures ApplyMutation(f, Registers(f, c, M), u) == Registers(f, c, M)
  {
    assert M + {u} == M && M + {c, u} == M + {c};
    RegistersStep(f, c, M, u);
  }
}
