/**
 The release gate (infra/scripts/release_recovery.py) decides, from inventories of the SQL files
 of two releases and from the rows of the live table, whether the schema bootstrap of a
 candidate may meet that table.
 */
module ReleaseGate {
  import opened Wrappers

  /** JSON values as json.loads delivers them. */
  datatype Json =
    | Null
    | Bool(b: bool)
    | Int(n: int)
    | Float(x: real)
    | Str(s: string)
    | List(items: seq<Json>)
    | Dict(fields: map<string, Json>)

  /** Repository path of a migration to the checksum of its contents. */
  type Inventory = map<string, string>

  datatype Refusal =
    | NotAList
    | MalformedRow
    | DuplicateRow
    | SchemaMismatch
    | AppliedSqlChanged
    | DeclarationMissing
    | RollbackUnconfirmed
    | DeclarationMismatch
    | ReviewMissing

  const PREFIX: string := "services/"
  const MIDDLE: string := "/db/schema/"

  function PathOf(service: string, name: string): string {
    PREFIX + service + MIDDLE + name
  }

  // ----- schema_state -----

  const ROW_KEYS: set<string> := {"service_name", "migration_name", "checksum"}

  predicate IsRow(row: Json) {
    row.Dict? && row.fields.Keys == ROW_KEYS &&
    row.fields["service_name"].Str? && row.fields["migration_name"].Str? && row.fields["checksum"].Str?
  }

  function RowPath(row: Json): string
    requires IsRow(row)
  {
    PathOf(row.fields["service_name"].s, row.fields["migration_name"].s)
  }

  function AppliedOf(rows: seq<Json>): Result<Inventory, Refusal> {
    if rows == [] then Ok(map[])
    else
      match AppliedOf(rows[..|rows| - 1])
      case Err(e) => Err(e)
      case Ok(applied) =>
        var row := rows[|rows| - 1];
        if !IsRow(row) then Err(MalformedRow)
        else if RowPath(row) in applied then Err(DuplicateRow)
        else Ok(applied[RowPath(row) := row.fields["checksum"].s])
  }

  function SchemaState(previous: Inventory, state: Json): Result<(), Refusal> {
    if !state.List? then Err(NotAList)
    else
      match AppliedOf(state.items)
      case Err(e) => Err(e)
      case Ok(applied) => if applied != previous then Err(SchemaMismatch) else Ok(())
  }

  lemma {:induction false} RefusalStays(rows: seq<Json>, i: nat)
    requires i <= |rows| && AppliedOf(rows[..i]).Err?
    ensures AppliedOf(rows) == AppliedOf(rows[..i])
  {
    if i == |rows| {
      assert rows[..i] == rows;
    } else {
      assert rows[..|rows| - 1][..i] == rows[..i];
      RefusalStays(rows[..|rows| - 1], i);
    }
  }

  method CheckSchemaState(previous: Inventory, state: Json) returns (r: Result<(), Refusal>)
    ensures r == SchemaState(previous, state)
  {
    if !state.List? { return Err(NotAList); }
    var rows := state.items;
    var applied: Inventory := map[];
    var i := 0;
    while i < |rows|
      invariant 0 <= i <= |rows|
      invariant AppliedOf(rows[..i]) == Ok(applied)
    {
      assert rows[..i + 1][..i] == rows[..i];
      var row := rows[i];
      if !IsRow(row) {
        RefusalStays(rows, i + 1);
        return Err(MalformedRow);
      }
      if RowPath(row) in applied {
        RefusalStays(rows, i + 1);
        return Err(DuplicateRow);
      }
      applied := applied[RowPath(row) := row.fields["checksum"].s];
      i := i + 1;
    }
    assert rows[..i] == rows;
    r := if applied != previous then Err(SchemaMismatch) else Ok(());
  }

  // ----- schema_policy -----

  /** inventory_digest: SHA-256 of the canonical JSON; any function of the inventory. */
  type InventoryDigest = Inventory -> string

  const DECLARED_KEYS: set<string> :=
    {"schema_version", "previous_sha", "candidate_sha", "previous_inventory_sha256", "candidate_inventory_sha256",
     "image_rollback_compatible"}
  const REVIEW_KEYS: set<string> := {"review", "evidence", "roll_forward"}

  predicate IsChanged(previous: Inventory, candidate: Inventory, path: string) {
    path in previous && (path !in candidate || candidate[path] != previous[path])
  }

  predicate HasText(declaration: map<string, Json>, key: string)
    requires key in declaration
  {
    declaration[key].Str? && 1 <= |declaration[key].s| <= 2048
  }

  function CheckDeclaration(previousSha: string, candidateSha: string, previous: Inventory, candidate: Inventory,
                            declaration: Json, digest: InventoryDigest): Result<(), Refusal> {
    if !declaration.Dict? || declaration.fields.Keys != DECLARED_KEYS + REVIEW_KEYS then Err(DeclarationMissing)
    else
      var d := declaration.fields;
      if !d["schema_version"].Int? || d["image_rollback_compatible"] != Bool(true) then Err(RollbackUnconfirmed)
      else if d["schema_version"] != Int(1) || d["previous_sha"] != Str(previousSha)
              || d["candidate_sha"] != Str(candidateSha)
              || d["previous_inventory_sha256"] != Str(digest(previous))
              || d["candidate_inventory_sha256"] != Str(digest(candidate)) then Err(DeclarationMismatch)
      else if !(HasText(d, "review") && HasText(d, "evidence") && HasText(d, "roll_forward")) then Err(ReviewMissing)
      else Ok(())
  }

  function Added(previous: Inventory, candidate: Inventory): set<string> {
    candidate.Keys - previous.Keys
  }

  /** The set of added paths, or the reason to stop the rollout. */
  function SchemaPolicy(previousSha: string, candidateSha: string, previous: Inventory, candidate: Inventory,
                        declaration: Json, digest: InventoryDigest): Result<set<string>, Refusal> {
    if exists path | path in previous :: IsChanged(previous, candidate, path) then Err(AppliedSqlChanged)
    else if Added(previous, candidate) == {} then Ok({})
    else
      match CheckDeclaration(previousSha, candidateSha, previous, candidate, declaration, digest)
      case Err(e) => Err(e)
      case Ok(_) => Ok(Added(previous, candidate))
  }

  // ----- When the policy lets new SQL pass -----

  ghost predicate NothingChanged(previous: Inventory, candidate: Inventory) {
    forall p :: p in previous ==> p in candidate && candidate[p] == previous[p]
  }

  predicate IsReview(text: string) {
    1 <= |text| <= 2048
  }

  /** The one document that allows this rollout, up to the wording of the review. */
  ghost predicate Confirms(declaration: Json, previousSha: string, candidateSha: string, previous: Inventory,
                           candidate: Inventory, digest: InventoryDigest)
  {
    exists review, evidence, plan :: IsReview(review) && IsReview(evidence) && IsReview(plan) &&
      declaration == Approval(previousSha, candidateSha, digest(previous), digest(candidate), review, evidence, plan)
  }

  function Approval(previousSha: string, candidateSha: string, previousDigest: string, candidateDigest: string,
                    review: string, evidence: string, plan: string): Json
  {
    Dict(map["schema_version" := Int(1), "previous_sha" := Str(previousSha), "candidate_sha" := Str(candidateSha),
             "previous_inventory_sha256" := Str(previousDigest),
             "candidate_inventory_sha256" := Str(candidateDigest), "image_rollback_compatible" := Bool(true),
             "review" := Str(review), "evidence" := Str(evidence), "roll_forward" := Str(plan)])
  }

  lemma AcceptedIsApproval(previousSha: string, candidateSha: string, previous: Inventory, candidate: Inventory,
                           declaration: Json, digest: InventoryDigest)
    requires CheckDeclaration(previousSha, candidateSha, previous, candidate, declaration, digest).Ok?
    ensures Confirms(declaration, previousSha, candidateSha, previous, candidate, digest)
  {
    var d := declaration.fields;
    var review, evidence, plan := d["review"].s, d["evidence"].s, d["roll_forward"].s;
    var approval := Approval(previousSha, candidateSha, digest(previous), digest(candidate), review, evidence, plan);
    assert approval.fields.Keys == DECLARED_KEYS + REVIEW_KEYS;
    assert d == approval.fields;
    assert declaration == approval && IsReview(review) && IsReview(evidence) && IsReview(plan);
  }

  lemma ApprovalIsAccepted(previousSha: string, candidateSha: string, previous: Inventory, candidate: Inventory,
                           review: string, evidence: string, plan: string, digest: InventoryDigest)
    requires IsReview(review) && IsReview(evidence) && IsReview(plan)
    ensures CheckDeclaration(previousSha, candidateSha, previous, candidate,
                             Approval(previousSha, candidateSha, digest(previous), digest(candidate),
                                      review, evidence, plan), digest).Ok?
  {
    var approval := Approval(previousSha, candidateSha, digest(previous), digest(candidate), review, evidence, plan);
    assert approval.fields.Keys == DECLARED_KEYS + REVIEW_KEYS;
  }

  lemma ChangedExactly(previous: Inventory, candidate: Inventory)
    ensures (exists path | path in previous :: IsChanged(previous, candidate, path)) <==>
            !NothingChanged(previous, candidate)
  {
    if path :| path in previous && IsChanged(previous, candidate, path) {
      assert !(path in candidate && candidate[path] == previous[path]);
    }
    if p :| p in previous && !(p in candidate && candidate[p] == previous[p]) {
      assert IsChanged(previous, candidate, p);
    }
  }

  /**
   New SQL passes exactly with the approval of this very rollout; old SQL must be what it was. The
   result is then the set of paths the candidate has and its predecessor has not.
   */
  lemma PolicyAcceptsExactly(previousSha: string, candidateSha: string, previous: Inventory, candidate: Inventory,
                             declaration: Json, digest: InventoryDigest)
    ensures var r := SchemaPolicy(previousSha, candidateSha, previous, candidate, declaration, digest);
            && (r.Ok? <==> NothingChanged(previous, candidate) &&
                           (candidate.Keys <= previous.Keys ||
                            Confirms(declaration, previousSha, candidateSha, previous, candidate, digest)))
            && (r.Ok? ==> forall p :: p in r.value <==> p in candidate && p !in previous)
  {
    ChangedExactly(previous, candidate);
    assert forall p :: p in candidate && p !in previous ==> p in Added(previous, candidate);
    if CheckDeclaration(previousSha, candidateSha, previous, candidate, declaration, digest).Ok? {
      AcceptedIsApproval(previousSha, candidateSha, previous, candidate, declaration, digest);
    }
    if Confirms(declaration, previousSha, candidateSha, previous, candidate, digest) {
      var review, evidence, plan :| IsReview(review) && IsReview(evidence) && IsReview(plan) && declaration ==
        Approval(previousSha, candidateSha, digest(previous), digest(candidate), review, evidence, plan);
      ApprovalIsAccepted(previousSha, candidateSha, previous, candidate, review, evidence, plan, digest);
    }
  }

  ghost predicate HasNineFields(declaration: Json) {
    declaration.Dict? &&
    declaration.fields.Keys == {"schema_version", "previous_sha", "candidate_sha", "previous_inventory_sha256",
                                "candidate_inventory_sha256", "image_rollback_compatible",
                                "review", "evidence", "roll_forward"}
  }

  /** A version number at all, and the flag: true itself, not something equal to it. */
  ghost predicate ConfirmsRollback(declaration: Json)
    requires HasNineFields(declaration)
  {
    (exists n :: declaration.fields["schema_version"] == Int(n)) &&
    declaration.fields["image_rollback_compatible"] == Bool(true)
  }

  ghost predicate NamesRollout(declaration: Json, previousSha: string, candidateSha: string, previous: Inventory,
                               candidate: Inventory, digest: InventoryDigest)
    requires HasNineFields(declaration)
  {
    var d := declaration.fields;
    && d["schema_version"] == Int(1) && d["previous_sha"] == Str(previousSha) && d["candidate_sha"] == Str(candidateSha)
    && d["previous_inventory_sha256"] == Str(digest(previous))
    && d["candidate_inventory_sha256"] == Str(digest(candidate))
  }

  /** Which refusal: the first of the checks that fails, in the order of the source. */
  lemma PolicyRefusesExactly(previousSha: string, candidateSha: string, previous: Inventory, candidate: Inventory,
                             declaration: Json, digest: InventoryDigest)
    requires SchemaPolicy(previousSha, candidateSha, previous, candidate, declaration, digest).Err?
    ensures var e := SchemaPolicy(previousSha, candidateSha, previous, candidate, declaration, digest).error;
            if !NothingChanged(previous, candidate) then e == AppliedSqlChanged
            else if !HasNineFields(declaration) then e == DeclarationMissing
            else if !ConfirmsRollback(declaration) then e == RollbackUnconfirmed
            else if !NamesRollout(declaration, previousSha, candidateSha, previous, candidate, digest) then
              e == DeclarationMismatch
            else e == ReviewMissing
  {
    ChangedExactly(previous, candidate);
    assert DECLARED_KEYS + REVIEW_KEYS ==
           {"schema_version", "previous_sha", "candidate_sha", "previous_inventory_sha256",
            "candidate_inventory_sha256", "image_rollback_compatible", "review", "evidence", "roll_forward"};
  }

  // ----- Paths and primary keys -----

  function Slashes(s: string): nat {
    if s == "" then 0 else Slashes(s[1..]) + if s[0] == '/' then 1 else 0
  }

  lemma {:induction false} SlashesOfConcat(a: string, b: string)
    ensures Slashes(a + b) == Slashes(a) + Slashes(b)
  {
    if a == "" {
      assert a + b == b;
    } else {
      SlashesOfConcat(a[1..], b);
      assert (a + b)[1..] == a[1..] + b;
    }
  }

  lemma {:induction false} NoSlash(s: string)
    ensures Slashes(s) == 0 <==> '/' !in s
  {
    if s != "" {
      NoSlash(s[1..]);
      assert s == [s[0]] + s[1..];
    }
  }

  lemma SlashesOfPath(service: string, name: string)
    ensures Slashes(PathOf(service, name)) == 4 + Slashes(service) + Slashes(name)
  {
    SlashesOfConcat(PREFIX + service + MIDDLE, name);
    SlashesOfConcat(PREFIX + service, MIDDLE);
    SlashesOfConcat(PREFIX, service);
    assert Slashes(PREFIX) == 1 by { LiteralSlashes(); }
    assert Slashes(MIDDLE) == 3 by { LiteralSlashes(); }
  }

  lemma SlashAround(before: string, part: string)
    requires '/' !in part
    ensures Slashes(before + part + "/") == Slashes(before) + 1
  {
    SlashesOfConcat(before + part, "/");
    SlashesOfConcat(before, part);
    NoSlash(part);
    assert "/"[1..] == "";
  }

  lemma LiteralSlashes()
    ensures Slashes(PREFIX) == 1 && Slashes(MIDDLE) == 3
  {
    SlashesAround("services", "db", "schema");
    assert PREFIX == "services" + "/";
    assert MIDDLE == "/" + "db" + "/" + "schema" + "/";
  }

  lemma SlashesAround(a: string, b: string, c: string)
    requires '/' !in a && '/' !in b && '/' !in c
    ensures Slashes(a + "/") == 1 && Slashes("/" + b + "/" + c + "/") == 3
  {
    SlashAround("", a);
    SlashAround("", "");
    assert "" + a == a && "" + "" + "/" == "/";
    SlashAround("/", b);
    SlashAround("/" + b + "/", c);
  }

  /** What `git ls-tree` filtering leaves: paths of exactly five parts. */
  ghost predicate IsInventory(inv: Inventory) {
    forall p :: p in inv ==> Slashes(p) == 4
  }

  /** On five-part paths the path determines service and name. */
  lemma PathDetermines(s: string, n: string, s2: string, n2: string)
    requires PathOf(s, n) == PathOf(s2, n2) && Slashes(PathOf(s, n)) == 4
    ensures s == s2 && n == n2
  {
    SlashesOfPath(s, n);
    SlashesOfPath(s2, n2);
    NoSlash(s);
    NoSlash(s2);
    var p := PathOf(s, n);
    assert p == PREFIX + (s + (MIDDLE + n)) == PREFIX + (s2 + (MIDDLE + n2));
    var q := p[9..];
    assert q == s + (MIDDLE + n) == s2 + (MIDDLE + n2);
    FirstPart(q, s, MIDDLE + n, s2, MIDDLE + n2);
    assert n == q[|s| + 11..] == n2;
  }

  lemma FirstPart(q: string, s: string, rest: string, s2: string, rest2: string)
    requires q == s + rest == s2 + rest2 && '/' !in s && '/' !in s2
    requires rest != "" && rest2 != "" && rest[0] == '/' && rest2[0] == '/'
    ensures s == s2
  {
    assert q[|s|] == '/' && q[|s2|] == '/';
    assert forall i :: 0 <= i < |s| ==> q[i] == s[i] && s[i] in s;
    assert forall i :: 0 <= i < |s2| ==> q[i] == s2[i] && s2[i] in s2;
    assert |s| == |s2|;
    assert s == q[..|s|] == s2;
  }
}
