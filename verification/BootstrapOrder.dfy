/**
 In which order the bootstrap works, and what its refusals name: migrations run by ascending file
 name, the checksum error is about the first changed file, the missing dependency is the first.
 */
module BootstrapOrder {
  import opened Wrappers
  import opened Bootstrap
  import Text

  // ----- What is collected -----

  /** strings.HasSuffix(name, ".sql") of a regular file. */
  ghost predicate IsSqlFile(e: DirEntry) {
    !e.isDir && exists stem: string :: e.name == stem + ".sql"
  }

  lemma SqlFileExactly(e: DirEntry)
    ensures IsMigrationFile(e) <==> IsSqlFile(e)
  {
    if IsMigrationFile(e) {
      assert e.name == e.name[..|e.name| - 4] + ".sql";
    }
  }

  ghost predicate StrictlyAscending(names: seq<string>) {
    forall i, j :: 0 <= i < j < |names| ==> Text.Before(names[i], names[j])
  }

  function NamesOf(pending: seq<Migration>): (names: seq<string>)
    ensures |names| == |pending| && forall i :: 0 <= i < |names| ==> names[i] == pending[i].name
  {
    seq(|pending|, i requires 0 <= i < |pending| => pending[i].name)
  }

  ghost predicate FilesAscend(files: seq<DirEntry>) {
    forall i, j :: 0 <= i < j < |files| ==> Text.Before(files[i].name, files[j].name)
  }

  lemma MigrationFilesAscend(entries: seq<DirEntry>)
    requires IsDirectory(entries)
    ensures FilesAscend(MigrationFiles(entries))
  {
    MigrationFilesSorted(entries);
    MigrationFilesDistinct(entries);
  }

  /** The migration is that of a file in the list which the table lacks. */
  ghost predicate IsLacking(rows: Rows, service: string, files: seq<DirEntry>, digest: Digest, m: Migration) {
    (service, m.name) !in rows &&
    exists e :: e in files && e.name == m.name && e.contents == m.sql && digest(e.contents) == m.checksum
  }

  ghost predicate IsDrifted(rows: Rows, service: string, e: DirEntry, digest: Digest) {
    (service, e.name) in rows && rows[(service, e.name)] != digest(e.contents)
  }

  lemma AscendsWith(before: seq<Migration>, m: Migration)
    requires StrictlyAscending(NamesOf(before)) && forall x :: x in before ==> Text.Before(x.name, m.name)
    ensures StrictlyAscending(NamesOf(before + [m]))
  {
    var names := NamesOf(before + [m]);
    forall i, j | 0 <= i < j < |names| ensures Text.Before(names[i], names[j]) {
      assert before[i] in before && names[i] == NamesOf(before)[i];
      if j < |before| { assert names[j] == NamesOf(before)[j]; }
    }
  }

  /** The migrations the table lacks, each once, by name. */
  ghost predicate IsCollected(rows: Rows, service: string, files: seq<DirEntry>, digest: Digest,
                              pending: seq<Migration>)
  {
    && StrictlyAscending(NamesOf(pending))
    && (forall m :: m in pending ==> IsLacking(rows, service, files, digest, m))
    && (forall e :: e in files && (service, e.name) !in rows ==>
          Migration(e.name, digest(e.contents), e.contents) in pending)
  }

  lemma LackingEarlier(rows: Rows, service: string, front: seq<DirEntry>, file: DirEntry, digest: Digest, m: Migration)
    requires FilesAscend(front + [file]) && IsLacking(rows, service, front, digest, m)
    ensures IsLacking(rows, service, front + [file], digest, m) && Text.Before(m.name, file.name)
  {
    var files := front + [file];
    var e :| e in front && e.name == m.name && e.contents == m.sql && digest(e.contents) == m.checksum;
    var i :| 0 <= i < |front| && front[i] == e;
    assert files[i] == e && files[|front|] == file;
  }

  lemma CollectedOneMore(rows: Rows, service: string, front: seq<DirEntry>, file: DirEntry, digest: Digest,
                         before: seq<Migration>)
    requires FilesAscend(front + [file]) && IsCollected(rows, service, front, digest, before)
    ensures (service, file.name) in rows ==> IsCollected(rows, service, front + [file], digest, before)
    ensures (service, file.name) !in rows ==>
              IsCollected(rows, service, front + [file], digest,
                          before + [Migration(file.name, digest(file.contents), file.contents)])
  {
    assert FilesAscend(front) by {
      assert forall i :: 0 <= i < |front| ==> (front + [file])[i] == front[i];
    }
    forall m | m in before
      ensures IsLacking(rows, service, front + [file], digest, m) && Text.Before(m.name, file.name)
    {
      LackingEarlier(rows, service, front, file, digest, m);
    }
    AscendsWith(before, Migration(file.name, digest(file.contents), file.contents));
    assert file in front + [file];
  }

  lemma {:induction false} CollectedInOrder(rows: Rows, service: string, files: seq<DirEntry>, digest: Digest)
    requires FilesAscend(files) && CollectPending(rows, service, files, digest).Ok?
    ensures IsCollected(rows, service, files, digest, CollectPending(rows, service, files, digest).value)
  {
    if files != [] {
      var front, file := files[..|files| - 1], files[|files| - 1];
      assert files == front + [file];
      CollectedInOrder(rows, service, front, digest);
      CollectedOneMore(rows, service, front, file, digest, CollectPending(rows, service, front, digest).value);
    }
  }

  /** The migration is a .sql file of the image that the table lacks, with its contents and their digest. */
  ghost predicate IsPending(rows: Rows, img: Image, digest: Digest, m: Migration) {
    exists e :: e in img.entries && IsSqlFile(e) && (img.service, e.name) !in rows &&
      m == Migration(e.name, digest(e.contents), e.contents)
  }

  /**
   What an image collects: strictly by name, exactly the .sql files the table lacks, each with its
   contents as statement and their digest as checksum.
   */
  lemma PendingExactly(rows: Rows, img: Image, digest: Digest)
    requires IsDirectory(img.entries)
    requires CollectPending(rows, img.service, MigrationFiles(img.entries), digest).Ok?
    ensures var pending := CollectPending(rows, img.service, MigrationFiles(img.entries), digest).value;
            && StrictlyAscending(NamesOf(pending))
            && (forall m :: m in pending <==> IsPending(rows, img, digest, m))
  {
    var files := MigrationFiles(img.entries);
    var pending := CollectPending(rows, img.service, files, digest).value;
    MigrationFilesSorted(img.entries);
    MigrationFilesAscend(img.entries);
    CollectedInOrder(rows, img.service, files, digest);
    forall e ensures e in files <==> e in img.entries && IsSqlFile(e) { SqlFileExactly(e); }
    forall m | m in pending ensures IsPending(rows, img, digest, m) {
      assert IsLacking(rows, img.service, files, digest, m);
      var e :| e in files && e.name == m.name && e.contents == m.sql && digest(e.contents) == m.checksum;
      assert m == Migration(e.name, digest(e.contents), e.contents);
    }
  }

  // ----- What a refusal names -----

  lemma {:induction false} NoneChangedBefore(rows: Rows, service: string, files: seq<DirEntry>, digest: Digest)
    requires CollectPending(rows, service, files, digest).Ok?
    ensures forall e :: e in files ==> !IsDrifted(rows, service, e, digest)
  {
    if files != [] {
      assert files == files[..|files| - 1] + [files[|files| - 1]];
      NoneChangedBefore(rows, service, files[..|files| - 1], digest);
    }
  }

  /** No changed file has a smaller name. */
  ghost predicate IsFirstDrifted(rows: Rows, service: string, files: seq<DirEntry>, digest: Digest, e: DirEntry) {
    && e in files && IsDrifted(rows, service, e, digest)
    && forall d :: d in files && IsDrifted(rows, service, d, digest) ==> d == e || Text.Before(e.name, d.name)
  }

  lemma StillFirstDrifted(rows: Rows, service: string, front: seq<DirEntry>, file: DirEntry, digest: Digest,
                          e: DirEntry)
    requires FilesAscend(front + [file]) && IsFirstDrifted(rows, service, front, digest, e)
    ensures IsFirstDrifted(rows, service, front + [file], digest, e)
  {
    var i :| 0 <= i < |front| && front[i] == e;
    assert (front + [file])[i] == e && (front + [file])[|front|] == file;
  }

  lemma LastDrifted(rows: Rows, service: string, front: seq<DirEntry>, file: DirEntry, digest: Digest)
    requires CollectPending(rows, service, front, digest).Ok? && IsDrifted(rows, service, file, digest)
    ensures IsFirstDrifted(rows, service, front + [file], digest, file)
  {
    NoneChangedBefore(rows, service, front, digest);
    assert file in front + [file];
  }

  lemma {:induction false} FirstChangedReported(rows: Rows, service: string, files: seq<DirEntry>, digest: Digest)
    returns (e: DirEntry)
    requires FilesAscend(files) && CollectPending(rows, service, files, digest).Err?
    ensures IsFirstDrifted(rows, service, files, digest, e)
    ensures CollectPending(rows, service, files, digest) == Err(ChecksumChanged(e.name))
  {
    var front, file := files[..|files| - 1], files[|files| - 1];
    assert files == front + [file];
    if CollectPending(rows, service, front, digest).Err? {
      assert FilesAscend(front);
      e := FirstChangedReported(rows, service, front, digest);
      StillFirstDrifted(rows, service, front, file, digest, e);
    } else {
      e := file;
      LastDrifted(rows, service, front, file, digest);
    }
  }

  /** Of several missing rows the one listed first is reported. */
  lemma {:induction false} FirstMissingReported(rows: Rows, requirements: seq<Requirement>) returns (i: nat)
    requires MissingRequirement(rows, requirements).Some?
    ensures i < |requirements| && requirements[i] == MissingRequirement(rows, requirements).value
    ensures (requirements[i].service, requirements[i].migration) !in rows
    ensures forall j :: 0 <= j < i ==> (requirements[j].service, requirements[j].migration) in rows
  {
    if (requirements[0].service, requirements[0].migration) !in rows {
      i := 0;
    } else {
      var k := FirstMissingReported(rows, requirements[1..]);
      i := k + 1;
      assert forall j :: 1 <= j < |requirements| ==> requirements[j] == requirements[1..][j - 1];
    }
  }

  // ----- What is executed -----

  function SqlOf(pending: seq<Migration>): (sqls: seq<string>)
    ensures |sqls| == |pending| && forall i :: 0 <= i < |sqls| ==> sqls[i] == pending[i].sql
  {
    seq(|pending|, i requires 0 <= i < |pending| => pending[i].sql)
  }

  /** The migration statements one attempt sends, the failing one included. */
  function Statements(rows: Rows, img: Image, digest: Digest, fault: Fault): seq<string> {
    if fault.Unreachable? || MissingRequirement(rows, img.requirements).Some? then []
    else
      match CollectPending(rows, img.service, MigrationFiles(img.entries), digest)
      case Err(_) => []
      case Ok(pending) =>
        SqlOf(Sent(pending, fault))
  }

  /** All pending migrations, or those up to the one whose statement fails. */
  function Sent(pending: seq<Migration>, fault: Fault): seq<Migration> {
    if fault.StatementFails? && fault.at < |pending| then pending[..fault.at + 1] else pending
  }

  lemma OutcomeOfSent(rows: Rows, img: Image, digest: Digest, fault: Fault)
    requires IsDirectory(img.entries)
    ensures var r, outcome := CollectPending(rows, img.service, MigrationFiles(img.entries), digest),
                              Attempt(rows, img, digest, fault).1;
            && (outcome.Done? ==> !fault.Unreachable? && MissingRequirement(rows, img.requirements).None? && r.Ok? &&
                                  Sent(r.value, fault) == r.value)
            && (outcome.Failed? && outcome.error.StatementFailed? ==>
                  !fault.Unreachable? && MissingRequirement(rows, img.requirements).None? && r.Ok? &&
                  var sent := Sent(r.value, fault); sent != [] && outcome.error.name == sent[|sent| - 1].name)
  {
    var r := CollectPending(rows, img.service, MigrationFiles(img.entries), digest);
    if r.Err? {
      MigrationFilesAscend(img.entries);
      var e := FirstChangedReported(rows, img.service, MigrationFiles(img.entries), digest);
    }
  }

  /** The names of the files behind a list of statements, strictly ascending, all lacking in the table. */
  ghost predicate AreFiles(rows: Rows, img: Image, names: seq<string>, sqls: seq<string>) {
    && |names| == |sqls| && StrictlyAscending(names)
    && forall i :: 0 <= i < |names| ==>
         (img.service, names[i]) !in rows &&
         exists e :: e in img.entries && IsSqlFile(e) && e.name == names[i] && e.contents == sqls[i]
  }

  /** No lacking file is passed over: one that is not executed comes after all that are. */
  ghost predicate NonePassedOver(rows: Rows, img: Image, names: seq<string>) {
    forall e :: e in img.entries && IsSqlFile(e) && (img.service, e.name) !in rows && e.name !in names ==>
      forall i :: 0 <= i < |names| ==> Text.Before(names[i], e.name)
  }

  /**
   Every attempt executes the contents of lacking .sql files in strictly ascending order of their
   names and passes none over; one that ends well executes all of them, and a failing statement is
   the last one sent and names its file.
   */
  lemma ExecutedInOrder(rows: Rows, img: Image, digest: Digest, fault: Fault) returns (names: seq<string>)
    requires IsDirectory(img.entries)
    ensures AreFiles(rows, img, names, Statements(rows, img, digest, fault))
    ensures names != [] ==> NonePassedOver(rows, img, names)
    ensures var outcome := Attempt(rows, img, digest, fault).1;
            && (outcome.Done? ==> forall e :: e in img.entries && IsSqlFile(e) && (img.service, e.name) !in rows ==>
                                    e.name in names)
            && (outcome.Failed? && outcome.error.StatementFailed? ==>
                  names != [] && outcome.error.name == names[|names| - 1])
  {
    names := [];
    OutcomeOfSent(rows, img, digest, fault);
    if !fault.Unreachable? && MissingRequirement(rows, img.requirements).None? {
      var r := CollectPending(rows, img.service, MigrationFiles(img.entries), digest);
      if r.Ok? {
        PendingExactly(rows, img, digest);
        names := NamesOf(Sent(r.value, fault));
        SentInOrder(rows, img, digest, r.value, Sent(r.value, fault));
      }
    }
  }

  lemma SentInOrder(rows: Rows, img: Image, digest: Digest, pending: seq<Migration>, sent: seq<Migration>)
    requires StrictlyAscending(NamesOf(pending)) && sent <= pending
    requires forall m :: m in pending <==> IsPending(rows, img, digest, m)
    ensures AreFiles(rows, img, NamesOf(sent), SqlOf(sent)) && NonePassedOver(rows, img, NamesOf(sent))
    ensures sent == pending ==> forall e :: e in img.entries && IsSqlFile(e) && (img.service, e.name) !in rows ==>
                                  e.name in NamesOf(sent)
  {
    var names := NamesOf(sent);
    forall i, j | 0 <= i < j < |names| ensures Text.Before(names[i], names[j]) {
      assert names[i] == NamesOf(pending)[i] && names[j] == NamesOf(pending)[j];
    }
    forall i | 0 <= i < |names|
      ensures (img.service, names[i]) !in rows
      ensures exists e :: e in img.entries && IsSqlFile(e) && e.name == names[i] && e.contents == SqlOf(sent)[i]
    {
      assert sent[i] == pending[i] && pending[i] in pending;
      assert IsPending(rows, img, digest, pending[i]);
    }
    forall e | e in img.entries && IsSqlFile(e) && (img.service, e.name) !in rows
      ensures sent == pending ==> e.name in names
      ensures e.name !in names ==> forall i :: 0 <= i < |names| ==> Text.Before(names[i], e.name)
    {
      assert IsPending(rows, img, digest, Migration(e.name, digest(e.contents), e.contents));
      LaterThanSent(pending, sent, Migration(e.name, digest(e.contents), e.contents));
    }
  }

  lemma LaterThanSent(pending: seq<Migration>, sent: seq<Migration>, m: Migration)
    requires StrictlyAscending(NamesOf(pending)) && sent <= pending && m in pending
    ensures sent == pending ==> m.name in NamesOf(sent)
    ensures m.name !in NamesOf(sent) ==>
              forall i :: 0 <= i < |NamesOf(sent)| ==> Text.Before(NamesOf(sent)[i], m.name)
  {
    var k :| 0 <= k < |pending| && pending[k] == m;
    if k < |sent| {
      assert sent[k] == m && NamesOf(sent)[k] == m.name;
    } else {
      forall i | 0 <= i < |sent| ensures Text.Before(NamesOf(sent)[i], m.name) {
        assert sent[i] == pending[i] && Text.Before(NamesOf(pending)[i], NamesOf(pending)[k]);
      }
    }
  }
}
