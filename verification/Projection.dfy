/**
 The client-side projection of an encrypted conversation: operations with a server sequence
 become timeline entries whose fields are separate last-writer registers.

 Direct messages (apps/web/src/chats/encrypted-v2-projection.ts) and groups
 (apps/web/src/groups/encrypted-group-projection.ts) share every branch but one: a group edit
 may leave the attachments alone and has a register of its own for them. The flavour selects it.
 */
module Projection {
  import opened Wrappers
  import opened ServerSequence
  import Text

  datatype Flavour = Direct | Group

  datatype Kind = Content | Edit | Tombstone

  /** The metadata an entry copies from its operation and never changes. */
  datatype Origin =
    | DirectOrigin(chatId: string, senderUserId: string, senderCryptoDeviceId: string)
    | GroupOrigin(groupId: string, threadId: string, mlsGroupId: string, rosterVersion: int,
                  senderUserId: string, senderCryptoDeviceId: string)

  datatype Attachment = Attachment(attachmentId: string, relaySchema: string, fileName: string, mimeType: string,
                                   plaintextSizeBytes: int, ciphertextSizeBytes: int)

  /** A decrypted envelope: readable, or known only to exist. */
  datatype Operation =
    | Ready(messageId: string, origin: Origin, revision: nat, createdAt: string, sequence: Sequence, storedAt: string,
            kind: Kind, targetMessageId: Option<string>, replyTo: Option<string>,
            text: Option<string>, markdownPolicy: Option<string>, attachments: Option<seq<Attachment>>,
            editedAt: Option<string>, deletedAt: Option<string>)
    | Undecrypted(messageId: string, origin: Origin, revision: nat, createdAt: string, sequence: Sequence,
                  storedAt: string, failureKind: string)

  datatype Reason = UnresolvedTarget | DecryptFailure(failureKind: string)

  datatype Entry =
    | Message(messageId: string, origin: Origin, revision: nat, createdAt: string, sequence: Sequence, storedAt: string,
              replyTo: Option<string>, lastApplied: Sequence, lastEdit: Option<Sequence>,
              lastAttachments: Option<Sequence>, tombstone: Option<Sequence>,
              text: Option<string>, markdownPolicy: Option<string>, attachments: seq<Attachment>,
              editedAt: Option<string>, deletedAt: Option<string>, isTombstone: bool)
    | Failure(messageId: string, origin: Origin, revision: nat, createdAt: string, sequence: Sequence, storedAt: string,
              reason: Reason)

  datatype Key = MessageKey(messageId: string) | FailureKey(messageId: string, revision: nat)

  type Table = map<Key, Entry>

  // ----- Keys -----

  function KeyOf(e: Entry): Key {
    if e.Message? then MessageKey(e.messageId) else FailureKey(e.messageId, e.revision)
  }

  function OwnFailureKey(op: Operation): Key {
    FailureKey(op.messageId, op.revision)
  }

  /** The string the source uses as the Map key. */
  function KeyText(k: Key): string {
    match k
    case MessageKey(id) => "message:" + id
    case FailureKey(id, revision) => "failure:" + id + ":" + Text.Digits(revision)
  }

  /** Two different keys never collide as strings, whatever characters the ids contain. */
  lemma KeyTextInjective(a: Key, b: Key)
    requires KeyText(a) == KeyText(b)
    ensures a == b
  {
    assert KeyText(a)[0] == KeyText(b)[0];
    if a.MessageKey? {
      assert a.messageId == KeyText(a)[8..] == KeyText(b)[8..] == b.messageId;
    } else {
      var x, y := Text.Digits(a.revision), Text.Digits(b.revision);
      assert KeyText(a)[8..] == a.messageId + ":" + x && KeyText(b)[8..] == b.messageId + ":" + y;
      LastColonSplits(a.messageId, x, b.messageId, y);
      Text.NumberOfDigits(a.revision);
      Text.NumberOfDigits(b.revision);
    }
  }

  lemma LastColonSplits(p: string, x: string, q: string, y: string)
    requires Text.AllDigits(x) && Text.AllDigits(y)
    requires p + ":" + x == q + ":" + y
    ensures p == q && x == y
  {
    var s := p + ":" + x;
    assert s[|p|] == ':' && s[|q|] == ':';
    assert forall i :: |p| < i < |s| ==> s[i] == x[i - |p| - 1];
    assert forall i :: |q| < i < |s| ==> s[i] == y[i - |q| - 1];
    assert |p| == |q|;
    assert p == s[..|p|] && q == s[..|q|] && x == s[|p| + 1..] && y == s[|q| + 1..];
  }

  // ----- Order of the timeline -----

  /** By origin sequence, then by key; localeCompare of the source becomes code-unit order. */
  predicate EntryBefore(a: Entry, b: Entry) {
    a.sequence < b.sequence ||
    (a.sequence == b.sequence && Text.Before(KeyText(KeyOf(a)), KeyText(KeyOf(b))))
  }

  ghost predicate KeysDistinct(S: set<Entry>) {
    forall a, b :: a in S && b in S && KeyOf(a) == KeyOf(b) ==> a == b
  }

  lemma EntryOrderTransitive(a: Entry, b: Entry, c: Entry)
    requires EntryBefore(a, b) && EntryBefore(b, c)
    ensures EntryBefore(a, c)
  {
    var x, y, z := KeyText(KeyOf(a)), KeyText(KeyOf(b)), KeyText(KeyOf(c));
    if a.sequence == b.sequence == c.sequence {
      Text.OrderTransitive(x, y, z);
      if x == z { Text.OrderAntisymmetric(x, y); }
    }
  }

  lemma EntryOrderTotal(a: Entry, b: Entry)
    requires KeyOf(a) != KeyOf(b)
    ensures EntryBefore(a, b) || EntryBefore(b, a)
  {
    Text.OrderTotal(KeyText(KeyOf(a)), KeyText(KeyOf(b)));
    if KeyText(KeyOf(a)) == KeyText(KeyOf(b)) { KeyTextInjective(KeyOf(a), KeyOf(b)); }
  }

  // ----- applyReadyProjection -----

  function ContentEntry(f: Flavour, u: Operation): Entry
    requires u.Ready?
  {
    Message(u.messageId, u.origin, u.revision, u.createdAt, u.sequence, u.storedAt, u.replyTo, u.sequence, None,
            if f.Group? then Some(u.sequence) else None, None,
            u.text, u.markdownPolicy, u.attachments.GetOr([]), u.editedAt, u.deletedAt, false)
  }

  function FailureEntry(op: Operation): (e: Entry)
    ensures e.Failure? && KeyOf(e) == OwnFailureKey(op) && e.sequence == op.sequence
  {
    Failure(op.messageId, op.origin, op.revision, op.createdAt, op.sequence, op.storedAt,
            if op.Ready? then UnresolvedTarget else DecryptFailure(op.failureKind))
  }

  /** The entry says of the operation what it is, field by field, and why it failed. */
  ghost predicate IsFailureOf(e: Entry, op: Operation) {
    && e.Failure? && e.messageId == op.messageId && e.revision == op.revision && e.origin == op.origin
    && e.sequence == op.sequence && e.createdAt == op.createdAt && e.storedAt == op.storedAt
    && (e.reason.UnresolvedTarget? <==> IsMutation(op))
    && (op.Undecrypted? ==> e.reason == DecryptFailure(op.failureKind))
  }

  predicate IsContent(op: Operation) {
    op.Ready? && op.kind.Content?
  }

  predicate IsMutation(op: Operation) {
    op.Ready? && !op.kind.Content?
  }

  function TargetId(u: Operation): string
    requires u.Ready?
  {
    match u.targetMessageId
    case Some(id) => Text.Trim(id)
    case None => ""
  }

  lemma FailureCopies(op: Operation)
    requires !IsContent(op)
    ensures IsFailureOf(FailureEntry(op), op)
  {}

  predicate After(s: Sequence, register: Option<Sequence>) {
    register.None? || s > register.value
  }

  function MaxTimestamp(left: string, right: string): string {
    if Text.AtOrBefore(right, left) then left else right
  }

  function EditText(t: Entry, u: Operation): Entry
    requires t.Message? && IsMutation(u)
  {
    if !After(u.sequence, t.lastEdit) then t
    else
      var marked := t.(lastEdit := Some(u.sequence), replyTo := u.replyTo,
                       editedAt := Some(u.editedAt.GetOr(u.storedAt)));
      if t.isTombstone then marked else marked.(text := u.text, markdownPolicy := u.markdownPolicy)
  }

  function EditAttachments(f: Flavour, t: Entry, u: Operation): Entry
    requires t.Message? && IsMutation(u)
  {
    match f
    case Direct =>
      if After(u.sequence, t.lastEdit) && !t.isTombstone then t.(attachments := u.attachments.GetOr([])) else t
    case Group =>
      if u.attachments.Some? && After(u.sequence, t.lastAttachments) then
        var marked := t.(lastAttachments := Some(u.sequence));
        if t.isTombstone then marked else marked.(attachments := u.attachments.value)
      else t
  }

  function Delete(t: Entry, u: Operation): Entry
    requires t.Message? && IsMutation(u)
  {
    var marked := if After(u.sequence, t.tombstone)
                  then t.(tombstone := Some(u.sequence), deletedAt := Some(u.deletedAt.GetOr(u.storedAt)))
                  else t;
    marked.(text := None, markdownPolicy := None, attachments := [], isTombstone := true)
  }

  /** What one mutation does to the message it targets. */
  function ApplyMutation(f: Flavour, t: Entry, u: Operation): Entry
    requires t.Message? && IsMutation(u)
  {
    var latest := u.sequence > t.lastApplied;
    var next := t.(lastApplied := if latest then u.sequence else t.lastApplied,
                   revision := if latest then u.revision else t.revision,
                   storedAt := MaxTimestamp(t.storedAt, u.storedAt));
    if u.kind.Edit? then EditText(EditAttachments(f, next, u), u) else Delete(next, u)
  }

  /** Whether the operation took effect, and the table after it. */
  function ApplyReady(f: Flavour, entries: Table, u: Operation): (Table, bool)
    requires u.Ready?
  {
    if u.kind.Content? then
      var key := MessageKey(u.messageId);
      if key in entries && entries[key].Message? && entries[key].lastApplied >= u.sequence then (entries, true)
      else (entries[key := ContentEntry(f, u)], true)
    else
      var key := MessageKey(TargetId(u));
      if key !in entries || !entries[key].Message? then (entries[OwnFailureKey(u) := FailureEntry(u)], false)
      else (entries[key := ApplyMutation(f, entries[key], u)], true)
  }

  function ApplyOperation(f: Flavour, entries: Table, op: Operation): Table {
    if op.Undecrypted? then entries[OwnFailureKey(op) := FailureEntry(op)]
    else
      var (after, applied) := ApplyReady(f, entries, op);
      if applied then after - {OwnFailureKey(op)} else after
  }

  function ApplyAll(f: Flavour, entries: Table, ops: seq<Operation>): Table {
    if ops == [] then entries
    else ApplyOperation(f, ApplyAll(f, entries, ops[..|ops| - 1]), ops[|ops| - 1])
  }
}
