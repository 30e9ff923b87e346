/** The transfer history: completed files promoted from the live snapshot
    into a record store, the history filters with their sort, the grouping
    of the history pane, and clearing the store. The store is a sequence of
    records in insertion order; the clock is a parameter. */
module History {
  import opened Common
  import opened Utils
  import opened Snapshot
  import opened Grouping

  datatype Record = Record(
    fileName: string,
    path: string,
    folderPath: string,
    kind: string,
    size: real,
    status: string,
    startTime: int,
    endTime: int,
    fileType: string,
    category: string,
    progress: real,
    currentSize: real)

  const CompletedStatus: string := "completed"

  function NameField(r: Record): string { r.fileName }

  /** `Math.round`: the nearest integer, halves rounded up. */
  function Round(x: real): (r: int)
    ensures r as real <= x + 0.5 < r as real + 1.0
  {
    (x + 0.5).Floor
  }

  /** `createHistoryRecord`, at clock reading `now` (milliseconds). */
  function CreateHistoryRecord(f: SnapFile, folderPath: string, fileName: string, fileExt: string, now: int): (r: Record)
    ensures r.status == CompletedStatus && r.progress == 100.0
    ensures r.size == f.currentSize && r.currentSize == f.currentSize
    ensures r.endTime == now && r.endTime - r.startTime == Round(f.currentSize * 10.0)
    ensures r.fileName == fileName && r.fileType == fileExt && r.category == FileTypeCategory(fileExt)
    ensures r.path == f.path && r.folderPath == folderPath && r.kind == f.kind
  {
    Record(fileName, f.path, folderPath, f.kind, f.currentSize, CompletedStatus,
      now - Round(f.currentSize * 10.0), now, fileExt, FileTypeCategory(fileExt), 100.0, f.currentSize)
  }

  /** A completed file of the snapshot and the folder it was listed under. */
  datatype Candidate = Candidate(file: SnapFile, folder: string)

  /** Only files at exactly 100 per cent are promoted. */
  predicate Done(f: SnapFile) { f.progress == 100.0 }

  /** The completed files of one folder, in order. */
  function FolderCandidates(folder: string, files: seq<SnapFile>): (r: seq<Candidate>)
    ensures forall i | 0 <= i < |r| :: Done(r[i].file) && r[i].file in files && r[i].folder == folder
    ensures forall i | 0 <= i < |files| && Done(files[i]) :: Candidate(files[i], folder) in r
  {
    if files == [] then []
    else
      var rest := FolderCandidates(folder, files[1..]);
      if Done(files[0]) then [Candidate(files[0], folder)] + rest else rest
  }

  /** `f` is one of `files`; written as a recursion over the sequence. */
  predicate InFiles(files: seq<SnapFile>, f: SnapFile) {
    files != [] && (files[0] == f || InFiles(files[1..], f))
  }

  /** `c` is a file of one of the folders, paired with that folder. */
  predicate InFolders(ts: seq<SnapFolder>, c: Candidate) {
    ts != [] && ((c.folder == ts[0].folder && InFiles(ts[0].files, c.file)) || InFolders(ts[1..], c))
  }

  lemma {:induction false} InFilesOf(files: seq<SnapFile>, k: nat)
    requires k < |files|
    ensures InFiles(files, files[k])
  {
    if k > 0 {
      InFilesOf(files[1..], k - 1);
    }
  }

  /** Where in `files` a file of `InFiles` sits. */
  lemma {:induction false} InFilesAt(files: seq<SnapFile>, f: SnapFile) returns (k: nat)
    requires InFiles(files, f)
    ensures k < |files| && files[k] == f
  {
    if files[0] == f {
      k := 0;
    } else {
      k := InFilesAt(files[1..], f);
      k := k + 1;
    }
  }

  /** Where in the folders a candidate of `InFolders` sits. */
  lemma {:induction false} InFoldersAt(ts: seq<SnapFolder>, c: Candidate) returns (j: nat, k: nat)
    requires InFolders(ts, c)
    ensures j < |ts| && k < |ts[j].files| && c == Candidate(ts[j].files[k], ts[j].folder)
  {
    if c.folder == ts[0].folder && InFiles(ts[0].files, c.file) {
      j := 0;
      k := InFilesAt(ts[0].files, c.file);
    } else {
      j, k := InFoldersAt(ts[1..], c);
      assert ts[1..][j] == ts[j + 1];
      j := j + 1;
    }
  }

  /** The candidates of a sweep: the completed files, folder by folder, in
      the order the two nested loops visit them. */
  function Candidates(ts: seq<SnapFolder>): (r: seq<Candidate>)
    ensures forall i | 0 <= i < |r| :: Done(r[i].file)
    ensures forall i | 0 <= i < |r| :: InFolders(ts, r[i])
    ensures forall j, i | 0 <= j < |ts| && 0 <= i < |ts[j].files| && Done(ts[j].files[i]) ::
              Candidate(ts[j].files[i], ts[j].folder) in r
  {
    if ts == [] then []
    else
      var here := FolderCandidates(ts[0].folder, ts[0].files);
      var rest := Candidates(ts[1..]);
      var r := here + rest;
      assert forall i | |here| <= i < |r| :: r[i] == rest[i - |here|];
      assert forall j | 1 <= j < |ts| :: ts[j] == ts[1..][j - 1];
      assert forall i | 0 <= i < |r| :: InFolders(ts, r[i]) by {
        forall i | 0 <= i < |r| ensures InFolders(ts, r[i]) {
          if i < |here| {
            var k :| 0 <= k < |ts[0].files| && ts[0].files[k] == here[i].file;
            InFilesOf(ts[0].files, k);
          } else {
            assert InFolders(ts[1..], rest[i - |here|]);
          }
        }
      }
      r
  }

  /** `file.path.split('/').pop()`: the name a candidate is stored under. */
  function CandidateName(c: Candidate): string { FileName(c.file.path) }

  /** The record a candidate becomes: named after the last path segment,
      typed by the lower-cased extension of that name. */
  function RecordFor(c: Candidate, now: int): Record {
    var name := CandidateName(c);
    CreateHistoryRecord(c.file, c.folder, name, FileExt(name), now)
  }

  /** `RecordFor` at one clock reading, as a function value. */
  function Maker(now: int): Candidate -> Record {
    c => RecordFor(c, now)
  }

  /** `make` turns every candidate into a completed record, stamped `now`,
      stored under the candidate's `name`. */
  ghost predicate Stamps<C(!new)>(make: C -> Record, name: C -> string, now: int) {
    forall c :: make(c).fileName == name(c) && make(c).status == CompletedStatus && make(c).endTime == now
  }

  lemma MakerStamps(now: int)
    ensures Stamps(Maker(now), CandidateName, now)
  {
  }

  /** Some record of the store carries this file name. */
  predicate HasName(store: seq<Record>, name: string) {
    exists i | 0 <= i < |store| :: store[i].fileName == name
  }

  // ---------------------------------------------------------------------
  // Promotion of a sequence of candidates, for any way `make` of turning a
  // candidate into a record; the existence check looks up the name of the
  // record the candidate would become.

  /** The records added when every existence check sees `base`: one per
      candidate whose name `base` lacks, duplicates included. */
  function AddUnseen<C>(base: seq<Record>, cs: seq<C>, make: C -> Record): (r: seq<Record>)
    ensures forall i | 0 <= i < |r| :: !HasName(base, r[i].fileName)
    ensures forall i | 0 <= i < |r| :: exists j | 0 <= j < |cs| :: r[i] == make(cs[j])
  {
    if cs == [] then []
    else
      var init, c := cs[..|cs| - 1], cs[|cs| - 1];
      var r0 := AddUnseen(base, init, make);
      assert forall i | 0 <= i < |r0| :: exists j | 0 <= j < |cs| :: r0[i] == make(cs[j]) by {
        forall i | 0 <= i < |r0| ensures exists j | 0 <= j < |cs| :: r0[i] == make(cs[j]) {
          var j :| 0 <= j < |init| && r0[i] == make(init[j]);
          assert cs[j] == init[j];
        }
      }
      if HasName(base, make(c).fileName) then r0 else r0 + [make(c)]
  }

  /** The records after promoting the candidates one by one, each
      existence check seeing the records added before it. */
  function SaveInto<C>(store: seq<Record>, cs: seq<C>, make: C -> Record): (r: seq<Record>)
    ensures |store| <= |r| && r[..|store|] == store
    ensures forall i | |store| <= i < |r| :: !HasName(store, r[i].fileName)
  {
    if cs == [] then store
    else
      var s0 := SaveInto(store, cs[..|cs| - 1], make);
      var x := make(cs[|cs| - 1]);
      assert s0[..|store|] == store;
      if HasName(s0, x.fileName) then s0
      else
        var r := s0 + [x];
        assert r[..|s0|] == s0;
        assert !HasName(store, x.fileName) by {
          forall i | 0 <= i < |store| ensures store[i].fileName != x.fileName {
            assert s0[i] == store[i];
          }
        }
        r
  }

  /** Every record a sweep adds is the record of one of its candidates. */
  lemma {:induction false} SaveIntoAddsCandidates<C>(store: seq<Record>, cs: seq<C>, make: C -> Record)
    ensures forall i | |store| <= i < |SaveInto(store, cs, make)| ::
              exists j | 0 <= j < |cs| :: SaveInto(store, cs, make)[i] == make(cs[j])
  {
    if cs != [] {
      var init := cs[..|cs| - 1];
      SaveIntoAddsCandidates(store, init, make);
      var s0 := SaveInto(store, init, make);
      var r := SaveInto(store, cs, make);
      assert r[..|s0|] == s0;
      forall i | |store| <= i < |r| ensures exists j | 0 <= j < |cs| :: r[i] == make(cs[j]) {
        if i < |s0| {
          assert r[i] == s0[i];
          var j :| 0 <= j < |init| && s0[i] == make(init[j]);
          assert cs[j] == init[j];
          assert r[i] == make(cs[j]);
        } else {
          assert r[i] == make(cs[|cs| - 1]);
        }
      }
    } else {
      assert SaveInto(store, cs, make) == store;
    }
  }

  /** After a sweep, every candidate's name is in the store. */
  lemma {:induction false} SaveIntoCovers<C>(store: seq<Record>, cs: seq<C>, make: C -> Record)
    ensures forall j | 0 <= j < |cs| :: HasName(SaveInto(store, cs, make), make(cs[j]).fileName)
  {
    if cs != [] {
      var init := cs[..|cs| - 1];
      SaveIntoCovers(store, init, make);
      var s0 := SaveInto(store, init, make);
      var r := SaveInto(store, cs, make);
      assert r[..|s0|] == s0;
      forall j | 0 <= j < |cs| ensures HasName(r, make(cs[j]).fileName) {
        var n := make(cs[j]).fileName;
        if j < |init| {
          assert cs[j] == init[j];
          var i :| 0 <= i < |s0| && s0[i].fileName == n;
          assert r[i] == s0[i];
        } else if !HasName(s0, n) {
          assert r[|r| - 1].fileName == n;
        } else {
          var i :| 0 <= i < |s0| && s0[i].fileName == n;
          assert r[i] == s0[i];
        }
      }
    }
  }

  /** A sweep keeps file names unique in the store. */
  lemma {:induction false} SaveIntoKeepsNamesUnique<C>(store: seq<Record>, cs: seq<C>, make: C -> Record)
    requires UniqueBy(store, NameField)
    ensures UniqueBy(SaveInto(store, cs, make), NameField)
  {
    if cs != [] {
      var init := cs[..|cs| - 1];
      SaveIntoKeepsNamesUnique(store, init, make);
      var s0 := SaveInto(store, init, make);
      var x := make(cs[|cs| - 1]);
      if !HasName(s0, x.fileName) {
        var r := s0 + [x];
        forall i, j | 0 <= i < j < |r| ensures NameField(r[i]) != NameField(r[j]) {
          if j == |s0| {
            assert r[i] == s0[i];
          } else {
            assert r[i] == s0[i] && r[j] == s0[j];
          }
        }
      }
    }
  }

  /** When every candidate's name is already stored, a sweep adds
      nothing. */
  lemma {:induction false} SaveIntoNothingNew<C>(store: seq<Record>, cs: seq<C>, make: C -> Record)
    requires forall j | 0 <= j < |cs| :: HasName(store, make(cs[j]).fileName)
    ensures SaveInto(store, cs, make) == store
  {
    if cs != [] {
      var init := cs[..|cs| - 1];
      assert forall j | 0 <= j < |init| :: init[j] == cs[j];
      SaveIntoNothingNew(store, init, make);
    }
  }

  lemma HasNameAppend(a: seq<Record>, b: seq<Record>, n: string)
    ensures HasName(a + b, n) <==> HasName(a, n) || HasName(b, n)
  {
    if HasName(a + b, n) {
      var i :| 0 <= i < |a + b| && (a + b)[i].fileName == n;
      if i >= |a| {
        assert b[i - |a|] == (a + b)[i];
      }
    }
    if HasName(a, n) {
      var i :| 0 <= i < |a| && a[i].fileName == n;
      assert (a + b)[i] == a[i];
    }
    if HasName(b, n) {
      var i :| 0 <= i < |b| && b[i].fileName == n;
      assert (a + b)[|a| + i] == b[i];
    }
  }

  /** A name no candidate has is never added. */
  lemma AddUnseenNames<C>(base: seq<Record>, cs: seq<C>, make: C -> Record, n: string)
    requires forall j | 0 <= j < |cs| :: make(cs[j]).fileName != n
    ensures !HasName(AddUnseen(base, cs, make), n)
  {
    var a := AddUnseen(base, cs, make);
    forall i | 0 <= i < |a| ensures a[i].fileName != n {
      var j :| 0 <= j < |cs| && a[i] == make(cs[j]);
    }
  }

  /** With no two candidates sharing a name, checking against the store
      at the start of the sweep adds the same records as checking against
      the growing store. */
  lemma {:induction false} AsWrittenAgreesOnDistinctNames<C>(store: seq<Record>, cs: seq<C>, make: C -> Record)
    requires forall i, j | 0 <= i < j < |cs| :: make(cs[i]).fileName != make(cs[j]).fileName
    ensures SaveInto(store, cs, make) == store + AddUnseen(store, cs, make)
  {
    if cs != [] {
      var init, c := cs[..|cs| - 1], cs[|cs| - 1];
      assert forall i | 0 <= i < |init| :: init[i] == cs[i];
      AsWrittenAgreesOnDistinctNames(store, init, make);
      var a0 := AddUnseen(store, init, make);
      var x := make(c);
      HasNameAppend(store, a0, x.fileName);
      AddUnseenNames(store, init, make, x.fileName);
      if !HasName(store, x.fileName) {
        assert store + a0 + [x] == store + (a0 + [x]);
      }
    }
  }

  // ---------------------------------------------------------------------
  // saveCompletedTransfers

  /** `saveCompletedTransfers` as written: every `get` is issued before any
      `add`, and requests run in order, so every existence check sees the
      store as it was when the sweep began. */
  function SaveCompletedAsWritten(store: seq<Record>, data: Snapshot, dbOpen: bool, now: int): (r: seq<Record>)
    ensures !dbOpen || data.None? ==> r == store
    ensures |store| <= |r| && r[..|store|] == store
  {
    if !dbOpen || data.None? then store
    else store + AddUnseen(store, Candidates(data.value), Maker(now))
  }

  /** `saveCompletedTransfers` with each check seeing the earlier adds of
      the same sweep. */
  function SaveCompleted(store: seq<Record>, data: Snapshot, dbOpen: bool, now: int): (r: seq<Record>)
    ensures !dbOpen || data.None? ==> r == store
    ensures |store| <= |r| && r[..|store|] == store
  {
    if !dbOpen || data.None? then store
    else SaveInto(store, Candidates(data.value), Maker(now))
  }

  /** What one sweep of `SaveInto` promises for any `make` that stamps
      its records: names stay unique, every candidate is stored under its
      name, each added record is completed, stamped and new to the store,
      and a second sweep adds nothing. */
  lemma SaveIntoProperties<C(!new)>(store: seq<Record>, cs: seq<C>, name: C -> string,
                              make: C -> Record, now: int, make2: C -> Record, later: int)
    requires UniqueBy(store, NameField)
    requires Stamps(make, name, now) && Stamps(make2, name, later)
    ensures var r := SaveInto(store, cs, make);
      && UniqueBy(r, NameField)
      && (forall j | 0 <= j < |cs| :: HasName(r, name(cs[j])))
      && (forall i | |store| <= i < |r| ::
            r[i].status == CompletedStatus && r[i].endTime == now && !HasName(store, r[i].fileName))
      && SaveInto(r, cs, make2) == r
  {
    var r := SaveInto(store, cs, make);
    SaveIntoKeepsNamesUnique(store, cs, make);
    SaveIntoCovers(store, cs, make);
    SaveIntoAddsCandidates(store, cs, make);
    assert forall j | 0 <= j < |cs| :: make(cs[j]).fileName == name(cs[j]) == make2(cs[j]).fileName;
    forall i | |store| <= i < |r|
      ensures r[i].status == CompletedStatus && r[i].endTime == now
    {
      var j :| 0 <= j < |cs| && r[i] == make(cs[j]);
    }
    SaveIntoNothingNew(r, cs, make2);
  }

  /** `x` is what `make` turns a completed file of `files` in `folder`
      into. */
  predicate RecordOfFiles(folder: string, files: seq<SnapFile>, x: Record, make: Candidate -> Record) {
    files != [] &&
    ((Done(files[0]) && x == make(Candidate(files[0], folder))) || RecordOfFiles(folder, files[1..], x, make))
  }

  /** `x` is what `make` turns a completed file of one of the folders
      into. */
  predicate RecordOfFolders(ts: seq<SnapFolder>, x: Record, make: Candidate -> Record) {
    ts != [] && (RecordOfFiles(ts[0].folder, ts[0].files, x, make) || RecordOfFolders(ts[1..], x, make))
  }

  lemma {:induction false} RecordOfFilesAt(folder: string, files: seq<SnapFile>, x: Record, make: Candidate -> Record)
    returns (k: nat)
    requires RecordOfFiles(folder, files, x, make)
    ensures k < |files| && Done(files[k]) && x == make(Candidate(files[k], folder))
  {
    if Done(files[0]) && x == make(Candidate(files[0], folder)) {
      k := 0;
    } else {
      k := RecordOfFilesAt(folder, files[1..], x, make);
      k := k + 1;
    }
  }

  /** Which completed file a record of `RecordOfFolders` comes from. */
  lemma {:induction false} RecordOfFoldersAt(ts: seq<SnapFolder>, x: Record, make: Candidate -> Record)
    returns (j: nat, k: nat)
    requires RecordOfFolders(ts, x, make)
    ensures j < |ts| && k < |ts[j].files| && Done(ts[j].files[k])
    ensures x == make(Candidate(ts[j].files[k], ts[j].folder))
  {
    if RecordOfFiles(ts[0].folder, ts[0].files, x, make) {
      j := 0;
      k := RecordOfFilesAt(ts[0].folder, ts[0].files, x, make);
    } else {
      j, k := RecordOfFoldersAt(ts[1..], x, make);
      assert ts[1..][j] == ts[j + 1];
      j := j + 1;
    }
  }

  /** What `make` turns a candidate of a folder into is a record of its
      files. */
  lemma {:induction false} FolderCandidateRecord(folder: string, files: seq<SnapFile>, m: nat, make: Candidate -> Record)
    requires m < |FolderCandidates(folder, files)|
    ensures RecordOfFiles(folder, files, make(FolderCandidates(folder, files)[m]), make)
  {
    if Done(files[0]) {
      if m > 0 {
        FolderCandidateRecord(folder, files[1..], m - 1, make);
      }
    } else {
      FolderCandidateRecord(folder, files[1..], m, make);
    }
  }

  /** What `make` turns a candidate of a sweep into is a record of the
      snapshot's completed files. */
  lemma {:induction false} CandidateRecord(ts: seq<SnapFolder>, m: nat, make: Candidate -> Record)
    requires m < |Candidates(ts)|
    ensures RecordOfFolders(ts, make(Candidates(ts)[m]), make)
  {
    var here := FolderCandidates(ts[0].folder, ts[0].files);
    if m < |here| {
      FolderCandidateRecord(ts[0].folder, ts[0].files, m, make);
    } else {
      CandidateRecord(ts[1..], m - |here|, make);
    }
  }

  /** Each record a sweep adds is the record, at `now`, of a completed
      file of the snapshot. */
  lemma SaveCompletedAddsFileRecords(store: seq<Record>, ts: seq<SnapFolder>, now: int)
    ensures var r := SaveCompleted(store, Some(ts), true, now);
      forall i | |store| <= i < |r| :: RecordOfFolders(ts, r[i], Maker(now))
  {
    assert SaveCompleted(store, Some(ts), true, now) == SaveInto(store, Candidates(ts), Maker(now));
    SaveIntoAddsFileRecords(store, ts, Maker(now));
  }

  /** The same for any record maker: what a sweep adds is made from a
      completed file of the snapshot. */
  lemma SaveIntoAddsFileRecords(store: seq<Record>, ts: seq<SnapFolder>, make: Candidate -> Record)
    ensures var r := SaveInto(store, Candidates(ts), make);
      forall i | |store| <= i < |r| :: RecordOfFolders(ts, r[i], make)
  {
    var cs := Candidates(ts);
    forall m | 0 <= m < |cs| ensures RecordOfFolders(ts, make(cs[m]), make) {
      CandidateRecord(ts, m, make);
    }
    SaveIntoAddsRecordsOf(store, cs, make, ts);
  }

  /** When `make` turns every candidate into a record of the folders, so
      does every record a sweep adds. */
  lemma SaveIntoAddsRecordsOf(store: seq<Record>, cs: seq<Candidate>, make: Candidate -> Record, ts: seq<SnapFolder>)
    requires forall m | 0 <= m < |cs| :: RecordOfFolders(ts, make(cs[m]), make)
    ensures var r := SaveInto(store, cs, make);
      forall i | |store| <= i < |r| :: RecordOfFolders(ts, r[i], make)
  {
    var r := SaveInto(store, cs, make);
    SaveIntoAddsCandidates(store, cs, make);
    forall i | |store| <= i < |r| ensures RecordOfFolders(ts, r[i], make) {
      var m :| 0 <= m < |cs| && r[i] == make(cs[m]);
    }
  }

  /** `SaveCompleted` on a snapshot: every completed file of the snapshot
      is stored under its file name, each added record is the record, at
      `now`, of a completed file of the snapshot and new to the store,
      names stay unique, and a second sweep over the same snapshot adds
      nothing. */
  lemma SaveCompletedProperties(store: seq<Record>, ts: seq<SnapFolder>, now: int, later: int)
    requires UniqueBy(store, NameField)
    ensures var r := SaveCompleted(store, Some(ts), true, now);
      && UniqueBy(r, NameField)
      && (forall j, i | 0 <= j < |ts| && 0 <= i < |ts[j].files| && Done(ts[j].files[i]) ::
            HasName(r, FileName(ts[j].files[i].path)))
      && (forall i | |store| <= i < |r| ::
            r[i].status == CompletedStatus && r[i].endTime == now && !HasName(store, r[i].fileName))
      && (forall i | |store| <= i < |r| :: RecordOfFolders(ts, r[i], Maker(now)))
      && SaveCompleted(r, Some(ts), true, later) == r
  {
    var cs := Candidates(ts);
    MakerStamps(now);
    MakerStamps(later);
    SaveIntoProperties(store, cs, CandidateName, Maker(now), now, Maker(later), later);
    var r := SaveInto(store, cs, Maker(now));
    SaveCompletedAddsFileRecords(store, ts, now);
    forall j, i | 0 <= j < |ts| && 0 <= i < |ts[j].files| && Done(ts[j].files[i])
      ensures HasName(r, FileName(ts[j].files[i].path))
    {
      var k :| 0 <= k < |cs| && cs[k] == Candidate(ts[j].files[i], ts[j].folder);
      assert HasName(r, CandidateName(cs[k]));
    }
  }

  /** The file name of a path is the text after its last slash. */
  lemma FileNameAfter(dir: string, name: string)
    requires '/' !in name
    ensures FileName(dir + "/" + name) == name
  {
    var s := dir + "/" + name;
    var r := FileName(s);
    assert s[|dir|] == '/';
    assert s[|dir|] in s;
    assert forall j | 0 <= j < |name| :: s[|dir| + 1 + j] == name[j];
    assert forall j | 0 <= j < |r| :: r[j] == s[|s| - |r| + j];
  }

  /** A completed download of `name` into folder `dir`. */
  function DoneFile(dir: string, name: string): SnapFile {
    SnapFile(dir + "/" + name, 100.0, 4.0, 4.0, "download")
  }

  /** A snapshot listing a completed file of the same name in each of two
      folders. */
  function SameNameTwice(a: string, b: string, name: string): seq<SnapFolder> {
    [SnapFolder(a + "/", [DoneFile(a, name)]), SnapFolder(b + "/", [DoneFile(b, name)])]
  }

  lemma SameNameTwiceCandidates(a: string, b: string, name: string)
    requires '/' !in name
    ensures var c1, c2 := Candidate(DoneFile(a, name), a + "/"), Candidate(DoneFile(b, name), b + "/");
      Candidates(SameNameTwice(a, b, name)) == [c1, c2] && CandidateName(c1) == name && CandidateName(c2) == name
  {
    var ts := SameNameTwice(a, b, name);
    var c1, c2 := Candidate(DoneFile(a, name), a + "/"), Candidate(DoneFile(b, name), b + "/");
    assert FolderCandidates(a + "/", [DoneFile(a, name)]) == [c1];
    assert FolderCandidates(b + "/", [DoneFile(b, name)]) == [c2];
    assert ts[1..] == [ts[1]] && ts[1..][1..] == [];
    assert Candidates(ts[1..]) == [c2];
    FileNameAfter(a, name);
    FileNameAfter(b, name);
    assert Candidates(ts) == [c1] + [c2];
  }

  lemma AddUnseenTwo<C>(c1: C, c2: C, make: C -> Record)
    ensures AddUnseen([], [c1, c2], make) == [make(c1), make(c2)]
  {
    var empty: seq<Record> := [];
    assert [c1, c2][..1] == [c1] && [c1][..0] == [];
    assert AddUnseen(empty, [c1], make) == [make(c1)];
  }

  lemma SaveIntoTwoSameName<C>(c1: C, c2: C, make: C -> Record)
    requires make(c1).fileName == make(c2).fileName
    ensures SaveInto([], [c1, c2], make) == [make(c1)]
  {
    var empty: seq<Record> := [];
    assert [c1, c2][..1] == [c1] && [c1][..0] == [];
    assert SaveInto(empty, [c1], make) == [make(c1)];
    assert [make(c1)][0].fileName == make(c2).fileName;
  }

  /** Two completed files with one name in two folders are both promoted,
      though the store is meant to hold each file name once. */
  lemma SaveAsWrittenDuplicates(a: string, b: string, name: string, now: int)
    requires '/' !in name
    ensures var r := SaveCompletedAsWritten([], Some(SameNameTwice(a, b, name)), true, now);
      |r| == 2 && r[0].fileName == r[1].fileName == name && !UniqueBy(r, NameField)
  {
    SameNameTwiceCandidates(a, b, name);
    var c1, c2 := Candidate(DoneFile(a, name), a + "/"), Candidate(DoneFile(b, name), b + "/");
    AddUnseenTwo(c1, c2, Maker(now));
    MakerStamps(now);
    var r := SaveCompletedAsWritten([], Some(SameNameTwice(a, b, name)), true, now);
    assert NameField(r[0]) == NameField(r[1]);
  }

  /** The same sweep stores the file once when each check sees the earlier
      adds: the record of the first folder's file. */
  lemma SaveCorrectedStoresOnce(a: string, b: string, name: string, now: int)
    requires '/' !in name
    ensures var r := SaveCompleted([], Some(SameNameTwice(a, b, name)), true, now);
      r == [Maker(now)(Candidate(DoneFile(a, name), a + "/"))] && r[0].fileName == name
  {
    SameNameTwiceCandidates(a, b, name);
    var c1, c2 := Candidate(DoneFile(a, name), a + "/"), Candidate(DoneFile(b, name), b + "/");
    MakerStamps(now);
    SaveIntoTwoSameName(c1, c2, Maker(now));
    var r := SaveCompleted([], Some(SameNameTwice(a, b, name)), true, now);
    assert r == [Maker(now)(c1)];
    assert r[0].fileName == name;
  }

  // ---------------------------------------------------------------------
  // filterHistoryData

  /** The history filter selectors; an empty search or date switches that
      filter off. */
  datatype HistoryFilter = HistoryFilter(kind: string, status: string, fileType: string, search: string, date: string)

  /** A record passes every active filter. Whether a record's end time
      falls on the selected date is left to `sameDay`. */
  predicate Matches(x: Record, hf: HistoryFilter, sameDay: (int, string) -> bool) {
    && (hf.kind == All || x.kind == hf.kind)
    && (hf.status == All || x.status == hf.status)
    && (hf.fileType == All || x.category == hf.fileType)
    && (hf.search == [] || Contains(Lower(x.fileName), Lower(hf.search)))
    && (hf.date == [] || sameDay(x.endTime, hf.date))
  }

  function MatchesFn(hf: HistoryFilter, sameDay: (int, string) -> bool): Record -> bool {
    (x: Record) => Matches(x, hf, sameDay)
  }

  /** One filter pass, applied only when its selector is active. */
  function Pass<T>(s: seq<T>, active: bool, p: T -> bool): seq<T> {
    if active then Filter(s, p) else s
  }

  /** A pass that may be skipped is a filter by "inactive or passes". */
  function Gate<T>(active: bool, p: T -> bool): T -> bool {
    (x: T) => !active || p(x)
  }

  lemma PassIsGate<T>(s: seq<T>, active: bool, p: T -> bool)
    ensures Pass(s, active, p) == Filter(s, Gate(active, p))
  {
    if active {
      FilterExt(s, p, Gate(active, p));
    } else {
      FilterAll(s, Gate(active, p));
    }
  }

  /** Passes in a row are one filter by the conjunction of their gates. */
  lemma TwoPasses<T>(s: seq<T>, g: T -> bool, active: bool, p: T -> bool)
    ensures Pass(Filter(s, g), active, p) == Filter(s, And(g, Gate(active, p)))
  {
    PassIsGate(Filter(s, g), active, p);
    FilterFilter(s, g, Gate(active, p));
  }

  function KindPass(hf: HistoryFilter): Record -> bool { (x: Record) => x.kind == hf.kind }
  function StatusPass(hf: HistoryFilter): Record -> bool { (x: Record) => x.status == hf.status }
  function TypePass(hf: HistoryFilter): Record -> bool { (x: Record) => x.category == hf.fileType }
  function SearchPass(hf: HistoryFilter): Record -> bool { (x: Record) => Contains(Lower(x.fileName), Lower(hf.search)) }
  function DatePass(hf: HistoryFilter, sameDay: (int, string) -> bool): Record -> bool { (x: Record) => sameDay(x.endTime, hf.date) }

  /** The five passes of `filterHistoryData`, in source order. */
  function FilterPasses(rs: seq<Record>, hf: HistoryFilter, sameDay: (int, string) -> bool): seq<Record> {
    var s1 := Pass(rs, hf.kind != All, KindPass(hf));
    var s2 := Pass(s1, hf.status != All, StatusPass(hf));
    var s3 := Pass(s2, hf.fileType != All, TypePass(hf));
    var s4 := Pass(s3, hf.search != [], SearchPass(hf));
    Pass(s4, hf.date != [], DatePass(hf, sameDay))
  }

  /** The conjunction of the five gates. */
  function Gates(hf: HistoryFilter, sameDay: (int, string) -> bool): Record -> bool {
    var g1 := Gate(hf.kind != All, KindPass(hf));
    var g2 := Gate(hf.status != All, StatusPass(hf));
    var g3 := Gate(hf.fileType != All, TypePass(hf));
    var g4 := Gate(hf.search != [], SearchPass(hf));
    var g5 := Gate(hf.date != [], DatePass(hf, sameDay));
    And(And(And(And(g1, g2), g3), g4), g5)
  }

  lemma GatesAreMatches(x: Record, hf: HistoryFilter, sameDay: (int, string) -> bool)
    ensures Gates(hf, sameDay)(x) == Matches(x, hf, sameDay)
  {
  }

  /** The passes keep exactly the records that match every filter, in
      their original order. */
  lemma FilterPassesMatch(rs: seq<Record>, hf: HistoryFilter, sameDay: (int, string) -> bool)
    ensures FilterPasses(rs, hf, sameDay) == Filter(rs, MatchesFn(hf, sameDay))
  {
    var g1 := Gate(hf.kind != All, KindPass(hf));
    var g2 := Gate(hf.status != All, StatusPass(hf));
    var g3 := Gate(hf.fileType != All, TypePass(hf));
    var g4 := Gate(hf.search != [], SearchPass(hf));
    PassIsGate(rs, hf.kind != All, KindPass(hf));
    TwoPasses(rs, g1, hf.status != All, StatusPass(hf));
    TwoPasses(rs, And(g1, g2), hf.fileType != All, TypePass(hf));
    TwoPasses(rs, And(And(g1, g2), g3), hf.search != [], SearchPass(hf));
    TwoPasses(rs, And(And(And(g1, g2), g3), g4), hf.date != [], DatePass(hf, sameDay));
    forall i | 0 <= i < |rs| ensures Gates(hf, sameDay)(rs[i]) == MatchesFn(hf, sameDay)(rs[i]) {
      GatesAreMatches(rs[i], hf, sameDay);
    }
    FilterExt(rs, Gates(hf, sameDay), MatchesFn(hf, sameDay));
  }

  /** Non-increasing in `key`. */
  predicate SortedDesc<T>(s: seq<T>, key: T -> int) {
    forall i, j | 0 <= i < j < |s| :: key(s[i]) >= key(s[j])
  }

  function KeyIs<T>(key: T -> int, t: int): T -> bool {
    (x: T) => key(x) == t
  }

  /** Insert `x` after every element whose key is no smaller. */
  function InsertDesc<T>(s: seq<T>, x: T, key: T -> int): (r: seq<T>)
    requires SortedDesc(s, key)
    ensures SortedDesc(r, key)
    ensures multiset(r) == multiset(s) + multiset{x}
    ensures r[0] == if s != [] && key(s[0]) >= key(x) then s[0] else x
  {
    if s == [] then [x]
    else if key(s[0]) >= key(x) then
      var rest := InsertDesc(s[1..], x, key);
      ConsSorted(s[0], rest, key);
      assert s == [s[0]] + s[1..];
      [s[0]] + rest
    else
      ConsSorted(x, s, key);
      [x] + s
  }

  lemma ConsSorted<T>(a: T, s: seq<T>, key: T -> int)
    requires SortedDesc(s, key) && (s != [] ==> key(s[0]) <= key(a))
    ensures SortedDesc([a] + s, key)
  {
    var r := [a] + s;
    forall i, j | 0 <= i < j < |r| ensures key(r[i]) >= key(r[j]) {
      if i > 0 {
        assert r[i] == s[i - 1] && r[j] == s[j - 1];
      } else {
        assert r[j] == s[j - 1];
      }
    }
  }

  /** A stable sort by descending key, as `Array.prototype.sort` with the
      comparator `(a, b) => key(b) - key(a)`. */
  function SortDesc<T>(s: seq<T>, key: T -> int): (r: seq<T>)
    ensures SortedDesc(r, key)
    ensures multiset(r) == multiset(s)
  {
    if s == [] then []
    else
      assert s == s[..|s| - 1] + [s[|s| - 1]];
      InsertDesc(SortDesc(s[..|s| - 1], key), s[|s| - 1], key)
  }

  lemma {:induction false} NoneWithKey<T>(s: seq<T>, key: T -> int, t: int)
    requires forall i | 0 <= i < |s| :: key(s[i]) != t
    ensures Filter(s, KeyIs(key, t)) == []
  {
    if s != [] {
      assert forall i | 0 <= i < |s[1..]| :: s[1..][i] == s[i + 1];
      NoneWithKey(s[1..], key, t);
    }
  }

  /** Inserting keeps the elements of each key in their order, the new one
      last among its equals. */
  lemma {:induction false} InsertKeepsTies<T>(s: seq<T>, x: T, key: T -> int, t: int)
    requires SortedDesc(s, key)
    ensures Filter(InsertDesc(s, x, key), KeyIs(key, t)) == Filter(s, KeyIs(key, t)) + Filter([x], KeyIs(key, t))
  {
    var p := KeyIs(key, t);
    if s != [] {
      if key(s[0]) >= key(x) {
        InsertKeepsTies(s[1..], x, key, t);
        TieBefore(s, InsertDesc(s[1..], x, key), [x], p);
      } else {
        if key(x) == t {
          assert forall i | 0 <= i < |s| :: key(s[i]) <= key(s[0]) < t;
          NoneWithKey(s, key, t);
        }
        TieAfter(x, s, p);
      }
    }
  }

  /** A kept head stays in front of its equals. */
  lemma TieBefore<T>(s: seq<T>, rest: seq<T>, xs: seq<T>, p: T -> bool)
    requires s != [] && Filter(rest, p) == Filter(s[1..], p) + Filter(xs, p)
    ensures Filter([s[0]] + rest, p) == Filter(s, p) + Filter(xs, p)
  {
    var h, tl := [s[0]], s[1..];
    assert h + tl == s;
    FilterAppend(h, rest, p);
    FilterAppend(h, tl, p);
    AppendAssoc(Filter(h, p), Filter(tl, p), Filter(xs, p));
  }

  /** An element put in front has no equals behind it. */
  lemma TieAfter<T>(x: T, s: seq<T>, p: T -> bool)
    requires Filter(s, p) == [] || !p(x)
    ensures Filter([x] + s, p) == Filter(s, p) + Filter([x], p)
  {
    FilterAppend([x], s, p);
  }

  /** The sort is stable: the elements that share a key keep their
      relative order. */
  lemma {:induction false} SortIsStable<T>(s: seq<T>, key: T -> int, t: int)
    ensures Filter(SortDesc(s, key), KeyIs(key, t)) == Filter(s, KeyIs(key, t))
  {
    if s != [] {
      var init, x := s[..|s| - 1], s[|s| - 1];
      SortIsStable(init, key, t);
      InsertKeepsTies(SortDesc(init, key), x, key, t);
      FilterAppend(init, [x], KeyIs(key, t));
      assert init + [x] == s;
    }
  }

  function EndTime(x: Record): int { x.endTime }

  /** `filterHistoryData`: the five passes, then the sort, newest first. */
  function FilterHistoryData(rs: seq<Record>, hf: HistoryFilter, sameDay: (int, string) -> bool): seq<Record> {
    SortDesc(FilterPasses(rs, hf, sameDay), EndTime)
  }

  /** The filtered history holds exactly the matching records, newest
      first, each as often as in the store; records that end at the same
      time keep their store order. */
  lemma FilterHistoryContents(rs: seq<Record>, hf: HistoryFilter, sameDay: (int, string) -> bool, t: int)
    ensures var r := FilterHistoryData(rs, hf, sameDay);
      && SortedDesc(r, EndTime)
      && multiset(r) == multiset(Filter(rs, MatchesFn(hf, sameDay)))
      && Filter(r, KeyIs(EndTime, t)) == Filter(Filter(rs, MatchesFn(hf, sameDay)), KeyIs(EndTime, t))
  {
    FilterPassesMatch(rs, hf, sameDay);
    SortIsStable(FilterPasses(rs, hf, sameDay), EndTime, t);
  }

  /** Membership in the filtered history: a record is listed exactly when
      it is in the store and matches. */
  lemma FilterHistoryMembers(rs: seq<Record>, hf: HistoryFilter, sameDay: (int, string) -> bool, x: Record)
    ensures x in FilterHistoryData(rs, hf, sameDay) <==> x in rs && Matches(x, hf, sameDay)
  {
    FilterPassesMatch(rs, hf, sameDay);
    var f := Filter(rs, MatchesFn(hf, sameDay));
    var r := FilterHistoryData(rs, hf, sameDay);
    assert x in r <==> x in multiset(r);
    assert x in f <==> x in multiset(f);
    if x in rs && Matches(x, hf, sameDay) {
      var i :| 0 <= i < |rs| && rs[i] == x;
      assert MatchesFn(hf, sameDay)(rs[i]);
    }
  }

  /** With every selector at "all" and no search or date, nothing is
      filtered out. */
  lemma NoHistoryFilterKeepsAll(rs: seq<Record>, sameDay: (int, string) -> bool)
    ensures multiset(FilterHistoryData(rs, HistoryFilter(All, All, All, "", ""), sameDay)) == multiset(rs)
  {
    var hf := HistoryFilter(All, All, All, "", "");
    FilterPassesMatch(rs, hf, sameDay);
    FilterAll(rs, MatchesFn(hf, sameDay));
  }

  /** The search ignores case and is a substring test on the file name. */
  lemma HistorySearchIgnoresCase(x: Record, search: string, sameDay: (int, string) -> bool)
    ensures Matches(x, HistoryFilter(All, All, All, search, ""), sameDay) <==>
              search == [] || Contains(Lower(x.fileName), Lower(search))
    ensures Matches(x, HistoryFilter(All, All, All, search, ""), sameDay) ==
              Matches(x, HistoryFilter(All, All, All, Lower(search), ""), sameDay)
  {
    LowerIdempotent(search);
    LowerEmpty(search);
  }

  // ---------------------------------------------------------------------
  // renderHistory

  const NoHistory: string := "没有历史记录"
  const LoadFailed: string := "加载历史记录失败"

  /** A folder of the history pane: the records saved under one folder
      path. */
  datatype HistoryFolder = HistoryFolder(folderPath: string, id: string, expanded: bool, records: seq<Record>)

  datatype HistoryPane = HistoryNotice(text: string) | HistoryFolders(folders: seq<HistoryFolder>)

  function FolderPathOf(x: Record): string { x.folderPath }

  /** One folder element per group, the first one expanded. */
  function FolderElements(gs: seq<Group<string, Record>>): (r: seq<HistoryFolder>)
    ensures |r| == |gs|
    ensures forall j | 0 <= j < |gs| :: r[j].folderPath == gs[j].key && r[j].records == gs[j].members
    ensures forall j | 0 <= j < |gs| :: r[j].expanded <==> j == 0
  {
    seq(|gs|, j requires 0 <= j < |gs| => HistoryFolder(gs[j].key, "history-folder-" + EncodeFolderId(gs[j].key), j == 0, gs[j].members))
  }

  /** `renderHistory`: the placeholder for no records, otherwise one
      folder per folder path, built by the `reduce` over the records. */
  function RenderHistory(rs: seq<Record>): (r: HistoryPane)
    ensures r.HistoryNotice? <==> rs == []
    ensures r.HistoryNotice? ==> r.text == NoHistory
  {
    if rs == [] then HistoryNotice(NoHistory)
    else HistoryFolders(FolderElements(GroupFold(rs, FolderPathOf)))
  }

  /** The rendered folders: one per distinct folder path in order of first
      appearance, each holding exactly the records with that path, in
      order, and only the first expanded. */
  lemma RenderHistoryGroups(rs: seq<Record>)
    requires rs != []
    ensures var fs, ks := RenderHistory(rs).folders, Keys(rs, FolderPathOf);
      && |fs| == |ks|
      && (forall j | 0 <= j < |fs| :: fs[j].folderPath == ks[j] && fs[j].records == Members(rs, FolderPathOf, ks[j]))
      && (forall j | 0 <= j < |fs| :: fs[j].expanded <==> j == 0)
  {
    GroupFoldIsGroupBy(rs, FolderPathOf);
    var gs := GroupBy(rs, FolderPathOf);
    assert gs == GroupsOf(rs, FolderPathOf, Keys(rs, FolderPathOf));
  }

  /** All records of the folders, folder after folder. */
  function FolderRecords(fs: seq<HistoryFolder>): seq<Record> {
    if fs == [] then [] else fs[0].records + FolderRecords(fs[1..])
  }

  lemma {:induction false} FolderRecordsIsFlatten(fs: seq<HistoryFolder>, gs: seq<Group<string, Record>>)
    requires |fs| == |gs| && forall j | 0 <= j < |fs| :: fs[j].records == gs[j].members
    ensures FolderRecords(fs) == Flatten(gs)
  {
    if fs != [] {
      FolderRecordsIsFlatten(fs[1..], gs[1..]);
    }
  }

  /** No record is lost or repeated: the folders together hold the records
      given, each as often, and each folder holds only records of its
      path. */
  lemma RenderHistoryPartitions(rs: seq<Record>)
    requires rs != []
    ensures var fs := RenderHistory(rs).folders;
      && multiset(FolderRecords(fs)) == multiset(rs)
      && forall j, i | 0 <= j < |fs| && 0 <= i < |fs[j].records| :: fs[j].records[i].folderPath == fs[j].folderPath
  {
    GroupFoldIsGroupBy(rs, FolderPathOf);
    GroupByPartitions(rs, FolderPathOf);
    var gs := GroupBy(rs, FolderPathOf);
    FolderRecordsIsFlatten(RenderHistory(rs).folders, gs);
  }

  // ---------------------------------------------------------------------
  // loadHistory and clearHistory

  /** `loadHistory`: nothing without a store; the failure notice when the
      read fails (`None`); otherwise the filtered records rendered. The
      result is the new pane, `None` when the pane is left alone. */
  function LoadHistory(dbOpen: bool, read: Option<seq<Record>>, hf: HistoryFilter, sameDay: (int, string) -> bool): (r: Option<HistoryPane>)
    ensures !dbOpen ==> r.None?
    ensures dbOpen && read.None? ==> r == Some(HistoryNotice(LoadFailed))
    ensures dbOpen && read.Some? ==> r.Some? && (r.value.HistoryNotice? ==> r.value.text == NoHistory)
  {
    if !dbOpen then None
    else match read
      case None => Some(HistoryNotice(LoadFailed))
      case Some(rs) => Some(RenderHistory(FilterHistoryData(rs, hf, sameDay)))
  }

  /** A loaded history shows the placeholder exactly when no record of the
      store matches the filters. */
  lemma LoadShowsPlaceholder(rs: seq<Record>, hf: HistoryFilter, sameDay: (int, string) -> bool)
    ensures LoadHistory(true, Some(rs), hf, sameDay).value.HistoryNotice? <==>
              forall i | 0 <= i < |rs| :: !Matches(rs[i], hf, sameDay)
  {
    var r := FilterHistoryData(rs, hf, sameDay);
    if r != [] {
      FilterHistoryMembers(rs, hf, sameDay, r[0]);
    }
    forall i | 0 <= i < |rs| && Matches(rs[i], hf, sameDay) ensures r != [] {
      FilterHistoryMembers(rs, hf, sameDay, rs[i]);
    }
  }

  const ClearFailed: string := "清空历史记录失败！"

  /** What `clearHistory` leaves: the store, the new pane if it was
      replaced, and the alert shown if any. */
  datatype ClearResult = ClearResult(store: seq<Record>, pane: Option<HistoryPane>, alert: Option<string>)

  /** `clearHistory`: nothing without a store or without the user's
      confirmation; otherwise the store is emptied and the pane shows the
      placeholder, or, when clearing fails, the store is kept and an alert
      is shown. */
  function ClearHistory(store: seq<Record>, dbOpen: bool, confirmed: bool, clearOk: bool): (r: ClearResult)
    ensures !dbOpen || !confirmed ==> r == ClearResult(store, None, None)
    ensures r.store == store || r.store == []
    ensures r.alert.Some? <==> dbOpen && confirmed && !clearOk
    ensures r.alert.Some? ==> r.store == store && r.alert.value == ClearFailed
  {
    if !dbOpen || !confirmed then ClearResult(store, None, None)
    else if clearOk then ClearResult([], Some(HistoryNotice(NoHistory)), None)
    else ClearResult(store, None, Some(ClearFailed))
  }

  /** After a successful clear, the pane shows what loading the emptied
      store shows, whatever the filters. */
  lemma ClearThenLoad(store: seq<Record>, hf: HistoryFilter, sameDay: (int, string) -> bool)
    ensures var r := ClearHistory(store, true, true, true);
      r.store == [] && r.pane == LoadHistory(true, Some(r.store), hf, sameDay)
  {
    var empty: seq<Record> := [];
    assert FilterHistoryData(empty, hf, sameDay) == [];
  }
}
