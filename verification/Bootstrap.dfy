/**
 Schema bootstrap (libs/go/dbbootstrap/runner.go): services apply their migrations to one shared
 table, one transaction at a time, each waiting for rows of the services it requires.
 */
module Bootstrap {
  import opened Wrappers
  import Text

  /** schema_migrations: (service, migration) is the primary key, the checksum is the value. */
  type Rows = map<(string, string), string>

  /** SHA-256 over file contents, printed in hexadecimal: any function. */
  type Digest = string -> string

  datatype DirEntry = DirEntry(name: string, isDir: bool, contents: string)

  datatype Requirement = Requirement(service: string, migration: string)

  /** One service at one version: the embedded migration directory and what it waits for. */
  datatype Image = Image(service: string, entries: seq<DirEntry>, requirements: seq<Requirement>)

  datatype Migration = Migration(name: string, checksum: string, sql: string)

  datatype Error =
    | DependencyMissing(requirement: Requirement)
    | ChecksumChanged(name: string)
    | StatementFailed(name: string)
    | Infrastructure
    | Deadline
    | ServiceNameMissing

  datatype Outcome = Done | Failed(error: Error)

  /** What may go wrong outside the runner during one attempt. */
  datatype Fault = NoFault | Unreachable | StatementFails(at: nat) | CommitFails(durable: bool)

  // ----- The migrations of an image -----

  predicate IsMigrationFile(e: DirEntry) {
    !e.isDir && |e.name| >= 4 && e.name[|e.name| - 4..] == ".sql"
  }

  /** A directory lists every name once. */
  ghost predicate IsDirectory(entries: seq<DirEntry>) {
    forall i, j :: 0 <= i < j < |entries| ==> entries[i].name != entries[j].name
  }

  function InsertByName(sorted: seq<DirEntry>, e: DirEntry): seq<DirEntry> {
    if sorted == [] || Text.AtOrBefore(sorted[|sorted| - 1].name, e.name) then sorted + [e]
    else InsertByName(sorted[..|sorted| - 1], e) + [sorted[|sorted| - 1]]
  }

  /** The migration files in the order of sort.Strings. */
  function MigrationFiles(entries: seq<DirEntry>): seq<DirEntry> {
    if entries == [] then []
    else
      var before := MigrationFiles(entries[..|entries| - 1]);
      if IsMigrationFile(entries[|entries| - 1]) then InsertByName(before, entries[|entries| - 1]) else before
  }

  ghost predicate NamesAscending(files: seq<DirEntry>) {
    forall i, j :: 0 <= i <= j < |files| ==> Text.AtOrBefore(files[i].name, files[j].name)
  }

  lemma {:induction false} InsertByNameElements(sorted: seq<DirEntry>, e: DirEntry)
    ensures multiset(InsertByName(sorted, e)) == multiset(sorted) + multiset{e}
  {
    if sorted != [] {
      assert sorted == sorted[..|sorted| - 1] + [sorted[|sorted| - 1]];
      InsertByNameElements(sorted[..|sorted| - 1], e);
    }
  }

  lemma {:induction false} InsertByNameSorts(sorted: seq<DirEntry>, e: DirEntry)
    requires NamesAscending(sorted)
    ensures NamesAscending(InsertByName(sorted, e))
  {
    Text.OrderReflexive(e.name);
    if sorted != [] {
      var front, last := sorted[..|sorted| - 1], sorted[|sorted| - 1];
      if Text.AtOrBefore(last.name, e.name) {
        forall i | 0 <= i < |sorted| ensures Text.AtOrBefore(sorted[i].name, e.name) {
          Text.OrderTransitive(sorted[i].name, last.name, e.name);
        }
      } else {
        Text.OrderTotal(last.name, e.name);
        Text.OrderReflexive(last.name);
        InsertByNameSorts(front, e);
        InsertByNameElements(front, e);
        var r := InsertByName(front, e);
        forall i | 0 <= i < |r| ensures Text.AtOrBefore(r[i].name, last.name) {
          assert r[i] in multiset(r);
          if r[i] != e {
            assert r[i] in front;
          }
        }
      }
    }
  }

  /** Exactly the .sql files, ascending by name. */
  lemma {:induction false} MigrationFilesSorted(entries: seq<DirEntry>)
    ensures NamesAscending(MigrationFiles(entries))
    ensures forall e :: e in MigrationFiles(entries) <==> e in entries && IsMigrationFile(e)
  {
    if entries != [] {
      var front, last := entries[..|entries| - 1], entries[|entries| - 1];
      assert entries == front + [last];
      MigrationFilesSorted(front);
      if IsMigrationFile(last) {
        InsertByNameSorts(MigrationFiles(front), last);
        InsertByNameElements(MigrationFiles(front), last);
        var r := MigrationFiles(entries);
        assert forall e :: e in r <==> e in multiset(r);
      }
    }
  }

  /** The rows the image wants to see in the table. */
  function TargetRows(img: Image, digest: Digest): Rows {
    RowsOfFiles(img.service, MigrationFiles(img.entries), digest)
  }

  function RowsOfFiles(service: string, files: seq<DirEntry>, digest: Digest): Rows {
    if files == [] then map[]
    else RowsOfFiles(service, files[..|files| - 1], digest)
           [(service, files[|files| - 1].name) := digest(files[|files| - 1].contents)]
  }

  lemma {:induction false} RowsOfFilesKeys(service: string, files: seq<DirEntry>, digest: Digest)
    ensures forall k :: k in RowsOfFiles(service, files, digest) ==> k.0 == service
  {
    if files != [] { RowsOfFilesKeys(service, files[..|files| - 1], digest); }
  }

  // ----- One attempt -----

  function MissingRequirement(rows: Rows, requirements: seq<Requirement>): Option<Requirement> {
    if requirements == [] then None
    else if (requirements[0].service, requirements[0].migration) !in rows then Some(requirements[0])
    else MissingRequirement(rows, requirements[1..])
  }

  /** collectPendingMigrations: the files not yet applied, or the first whose checksum changed. */
  function CollectPending(rows: Rows, service: string, files: seq<DirEntry>, digest: Digest):
    Result<seq<Migration>, Error>
  {
    if files == [] then Ok([])
    else
      match CollectPending(rows, service, files[..|files| - 1], digest)
      case Err(e) => Err(e)
      case Ok(pending) =>
        var file := files[|files| - 1];
        var checksum := digest(file.contents);
        if (service, file.name) !in rows then Ok(pending + [Migration(file.name, checksum, file.contents)])
        else if rows[(service, file.name)] != checksum then Err(ChecksumChanged(file.name))
        else Ok(pending)
  }

  function InsertRows(rows: Rows, service: string, pending: seq<Migration>): Rows {
    if pending == [] then rows
    else InsertRows(rows, service, pending[..|pending| - 1])
           [(service, pending[|pending| - 1].name) := pending[|pending| - 1].checksum]
  }

  /** applyOnce: the table after the transaction, and what the runner reports. */
  function Attempt(rows: Rows, img: Image, digest: Digest, fault: Fault): (Rows, Outcome) {
    if fault.Unreachable? then (rows, Failed(Infrastructure))
    else if MissingRequirement(rows, img.requirements).Some? then
      (rows, Failed(DependencyMissing(MissingRequirement(rows, img.requirements).value)))
    else
      match CollectPending(rows, img.service, MigrationFiles(img.entries), digest)
      case Err(e) => (rows, Failed(e))
      case Ok(pending) =>
        if fault.StatementFails? && fault.at < |pending| then (rows, Failed(StatementFailed(pending[fault.at].name)))
        else
          var after := InsertRows(rows, img.service, pending);
          if fault.CommitFails? then (if fault.durable then after else rows, Failed(Infrastructure))
          else (after, Done)
  }

  // ----- What an attempt means for the table -----

  ghost predicate RequirementsMet(rows: Rows, img: Image) {
    forall r :: r in img.requirements ==> (r.service, r.migration) in rows
  }

  /** No applied migration of the image has another checksum. */
  ghost predicate NoDrift(rows: Rows, img: Image, digest: Digest) {
    forall k :: k in TargetRows(img, digest) && k in rows ==> rows[k] == TargetRows(img, digest)[k]
  }

  ghost predicate Extends(small: Rows, large: Rows) {
    forall k :: k in small ==> k in large && large[k] == small[k]
  }

  lemma {:induction false} MissingMeansUnmet(rows: Rows, requirements: seq<Requirement>)
    ensures MissingRequirement(rows, requirements).None? <==>
            forall r :: r in requirements ==> (r.service, r.migration) in rows
  {
    if requirements != [] {
      MissingMeansUnmet(rows, requirements[1..]);
      assert requirements == [requirements[0]] + requirements[1..];
    }
  }

  lemma InsertRowsSnoc(rows: Rows, service: string, pending: seq<Migration>, m: Migration)
    ensures InsertRows(rows, service, pending + [m]) ==
            InsertRows(rows, service, pending)[(service, m.name) := m.checksum]
  {
    assert (pending + [m])[..|pending|] == pending;
  }

  lemma AddOne(rows: Rows, before: Rows, k: (string, string), checksum: string)
    ensures (rows + before)[k := checksum] == rows + before[k := checksum]
    ensures k !in before && k in rows && rows[k] == checksum ==> rows + before == rows + before[k := checksum]
  {}

  /** Pending migrations are what the table lacks; a changed checksum is the only refusal. */
  lemma {:induction false} CollectPendingMeaning(rows: Rows, service: string, files: seq<DirEntry>, digest: Digest)
    requires IsDirectory(files)
    ensures var target, r := RowsOfFiles(service, files, digest), CollectPending(rows, service, files, digest);
            && (r.Ok? <==> forall k :: k in target && k in rows ==> rows[k] == target[k])
            && (r.Ok? ==> InsertRows(rows, service, r.value) == rows + target)
            && (r.Ok? ==> (r.value == [] <==> target.Keys <= rows.Keys))
            && (r.Err? ==> r.error.ChecksumChanged?)
  {
    if files == [] {
      assert rows + map[] == rows;
    } else {
      var front, file := files[..|files| - 1], files[|files| - 1];
      var k := (service, file.name);
      var before := RowsOfFiles(service, front, digest);
      CollectPendingMeaning(rows, service, front, digest);
      NameNotYetTaken(service, front, file, digest);
      assert RowsOfFiles(service, files, digest) == before[k := digest(file.contents)];
      var r := CollectPending(rows, service, front, digest);
      if r.Ok? {
        InsertRowsSnoc(rows, service, r.value, Migration(file.name, digest(file.contents), file.contents));
        AddOne(rows, before, k, digest(file.contents));
      }
    }
  }

  lemma {:induction false} NameNotYetTaken(service: string, files: seq<DirEntry>, file: DirEntry, digest: Digest)
    requires forall i :: 0 <= i < |files| ==> files[i].name != file.name
    ensures (service, file.name) !in RowsOfFiles(service, files, digest)
  {
    if files != [] { NameNotYetTaken(service, files[..|files| - 1], file, digest); }
  }

  lemma {:induction false} InsertByNameDistinct(sorted: seq<DirEntry>, e: DirEntry)
    requires IsDirectory(sorted) && forall i :: 0 <= i < |sorted| ==> sorted[i].name != e.name
    ensures IsDirectory(InsertByName(sorted, e))
    ensures forall i :: 0 <= i < |InsertByName(sorted, e)| ==>
              InsertByName(sorted, e)[i] == e || InsertByName(sorted, e)[i] in sorted
  {
    if sorted != [] {
      var front, last := sorted[..|sorted| - 1], sorted[|sorted| - 1];
      assert sorted == front + [last];
      InsertByNameDistinct(front, e);
    }
  }

  lemma {:induction false} MigrationFilesDistinct(entries: seq<DirEntry>)
    requires IsDirectory(entries)
    ensures IsDirectory(MigrationFiles(entries))
  {
    if entries != [] {
      var front, last := entries[..|entries| - 1], entries[|entries| - 1];
      MigrationFilesDistinct(front);
      MigrationFilesSorted(front);
      forall i | 0 <= i < |MigrationFiles(front)| ensures MigrationFiles(front)[i].name != last.name {
        var e := MigrationFiles(front)[i];
        assert e in MigrationFiles(front);
        var j :| 0 <= j < |front| && front[j] == e;
      }
      if IsMigrationFile(last) { InsertByNameDistinct(MigrationFiles(front), last); }
    }
  }

  /** The image may proceed: its requirements are in the table and none of its checksums changed. */
  ghost predicate Ready(rows: Rows, img: Image, digest: Digest) {
    RequirementsMet(rows, img) && NoDrift(rows, img, digest)
  }

  /**
   An attempt adds all rows of its image or none, only when it may proceed, and reports success
   exactly when it may proceed and nothing outside fails.
   */
  lemma AttemptEffect(rows: Rows, img: Image, digest: Digest, fault: Fault)
    requires IsDirectory(img.entries)
    ensures var (after, outcome) := Attempt(rows, img, digest, fault);
            && (after == rows || (Ready(rows, img, digest) && after == rows + TargetRows(img, digest)))
            && (outcome.Done? ==> Ready(rows, img, digest) && after == rows + TargetRows(img, digest))
            && (fault.NoFault? ==> (outcome.Done? <==> Ready(rows, img, digest)))
            && (fault.NoFault? && !outcome.Done? ==>
                  (outcome.error.DependencyMissing? <==> !RequirementsMet(rows, img)) &&
                  (outcome.error.ChecksumChanged? <==> RequirementsMet(rows, img)))
  {
    MigrationFilesDistinct(img.entries);
    MissingMeansUnmet(rows, img.requirements);
    CollectPendingMeaning(rows, img.service, MigrationFiles(img.entries), digest);
  }

  /**
   What each failure outside does: the attempt ends badly if it gets that far, and then the table
   keeps what it was, except where the commit reached the database before the connection broke.
   */
  lemma FaultEffect(rows: Rows, img: Image, digest: Digest, fault: Fault)
    requires IsDirectory(img.entries) && !fault.NoFault?
    ensures var (after, outcome) := Attempt(rows, img, digest, fault);
            && (after != rows ==> outcome.Done? || fault == CommitFails(true))
            && (outcome.Done? ==> fault.StatementFails?)
            && (fault.Unreachable? ==> outcome == Failed(Infrastructure))
            && (fault.CommitFails? ==>
                  outcome.Failed? && (outcome.error == Infrastructure <==> Ready(rows, img, digest)))
            && (fault == CommitFails(true) && Ready(rows, img, digest) ==> after == rows + TargetRows(img, digest))
            && (outcome.Failed? && outcome.error.StatementFailed? ==> fault.StatementFails?)
  {
    MigrationFilesDistinct(img.entries);
    MissingMeansUnmet(rows, img.requirements);
    CollectPendingMeaning(rows, img.service, MigrationFiles(img.entries), digest);
  }
}
