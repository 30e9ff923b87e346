/** The desktop client's status registry: the deque of per-file transfer
    states, the per-channel speed list, the bounded connection-event log, and
    the folder grouping the `/transfers` endpoint applies before writing its
    JSON. Each call is one atomic step on an immutable sequence. */
module StatusServer {
  import opened Common
  import opened Grouping
  import opened Snapshot

  // ---------------------------------------------------------------------
  // Transfer states

  datatype TransferStatus = TransferStatus(path: string, progress: real, currentSize: real, totalSize: real, kind: string)

  function PathOf(s: TransferStatus): string { s.path }

  /** An entry that reads as finished: progress 100 and the whole size done. */
  predicate Finished(s: TransferStatus) {
    s.progress == 100.0 && s.currentSize == s.totalSize
  }

  /** One entry forced to finished, everything else kept. */
  function Complete(s: TransferStatus): (r: TransferStatus)
    ensures Finished(r)
    ensures r.path == s.path && r.totalSize == s.totalSize && r.kind == s.kind
  {
    s.(progress := 100.0, currentSize := s.totalSize)
  }

  /** `completeAllTransfers`: every entry finished, count and order kept. */
  function CompleteAll(q: seq<TransferStatus>): (r: seq<TransferStatus>)
    ensures |r| == |q|
    ensures forall i | 0 <= i < |q| ::
              Finished(r[i]) && r[i].path == q[i].path && r[i].totalSize == q[i].totalSize && r[i].kind == q[i].kind
  {
    Map(q, Complete)
  }

  /** Completing is idempotent: a second call changes nothing. */
  lemma CompleteAllIdempotent(q: seq<TransferStatus>)
    ensures CompleteAll(CompleteAll(q)) == CompleteAll(q)
  {
    assert forall i | 0 <= i < |q| :: Complete(Complete(q[i])) == Complete(q[i]);
  }

  /** A registry in which no path appears twice. */
  predicate UniquePaths(q: seq<TransferStatus>) {
    UniqueBy(q, PathOf)
  }

  /** `updateTransferStatus`: finish every existing entry, drop the entries
      for the same path, and append the new state at the tail. */
  function UpdateTransferStatus(q: seq<TransferStatus>, s: TransferStatus): (r: seq<TransferStatus>)
    ensures 1 <= |r| <= |q| + 1 && r[|r| - 1] == s
    ensures forall i | 0 <= i < |r| - 1 :: r[i].path != s.path && Finished(r[i])
    ensures forall i | 0 <= i < |r| - 1 :: exists j | 0 <= j < |q| :: r[i] == Complete(q[j])
    ensures forall j | 0 <= j < |q| && q[j].path != s.path :: Complete(q[j]) in r
    ensures r[..|r| - 1] == Filter(CompleteAll(q), (e: TransferStatus) => e.path != s.path)
  {
    var rest := RemoveKey(CompleteAll(q), PathOf, s.path);
    SurvivorsCompleted(q, s.path);
    var r := rest + [s];
    assert r[..|r| - 1] == rest;
    r
  }

  /** The entries left after finishing every entry and dropping those for
      `path`: each a finished old entry, in the old order. */
  lemma SurvivorsCompleted(q: seq<TransferStatus>, path: string)
    ensures var rest := RemoveKey(CompleteAll(q), PathOf, path);
      && (forall i | 0 <= i < |rest| :: rest[i].path != path && Finished(rest[i]))
      && (forall i | 0 <= i < |rest| :: exists j | 0 <= j < |q| :: rest[i] == Complete(q[j]))
      && (forall j | 0 <= j < |q| && q[j].path != path :: Complete(q[j]) in rest)
      && rest == Filter(CompleteAll(q), (e: TransferStatus) => e.path != path)
  {
    var rest := RemoveKey(CompleteAll(q), PathOf, path);
    RemoveKeyIsFilter(CompleteAll(q), PathOf, path, (e: TransferStatus) => e.path != path);
    forall i | 0 <= i < |rest| ensures exists j | 0 <= j < |q| :: rest[i] == Complete(q[j]) {
      var j :| 0 <= j < |q| && CompleteAll(q)[j] == rest[i];
    }
    forall j | 0 <= j < |q| && q[j].path != path ensures Complete(q[j]) in rest {
      assert CompleteAll(q)[j] == Complete(q[j]);
    }
  }

  /** Paths stay unique and the newest entry sits at the tail. */
  lemma UpdateKeepsPathsUnique(q: seq<TransferStatus>, s: TransferStatus)
    requires UniquePaths(q)
    ensures var r := UpdateTransferStatus(q, s);
      UniquePaths(r) && r[|r| - 1] == s
  {
    var c := CompleteAll(q);
    assert UniqueBy(c, PathOf) by {
      forall i, j | 0 <= i < j < |c| ensures c[i].path != c[j].path {
        assert q[i].path != q[j].path;
      }
    }
    RemoveKeyUnique(c, PathOf, s.path);
    var rest := RemoveKey(c, PathOf, s.path);
    var r := rest + [s];
    forall i, j | 0 <= i < j < |r| ensures r[i].path != r[j].path {
      if j < |rest| {
        assert r[i] == rest[i] && r[j] == rest[j];
      } else {
        assert r[i] == rest[i];
      }
    }
  }

  /** Only one entry per path survives, however many updates name it. */
  lemma UpdateIsLastWriteWins(q: seq<TransferStatus>, s1: TransferStatus, s2: TransferStatus)
    requires s1.path == s2.path
    ensures s1 !in UpdateTransferStatus(UpdateTransferStatus(q, s1), s2)[..|UpdateTransferStatus(UpdateTransferStatus(q, s1), s2)| - 1]
  {
  }

  // ---------------------------------------------------------------------
  // Per-file normalisation

  /** `path.replace("\\", "/")` */
  function Normalize(path: string): (r: string)
    ensures |r| == |path| && '\\' !in r
    ensures forall i | 0 <= i < |path| && path[i] != '\\' :: r[i] == path[i]
  {
    ReplaceChar(path, '\\', '/')
  }

  /** `createFileInfo`: the entry as it is published. */
  function FileInfo(s: TransferStatus): (r: SnapFile)
    ensures r.path == Normalize(s.path)
    ensures r.progress <= 100.0 && (r.progress == s.progress || r.progress == 100.0)
    ensures s.progress <= 100.0 ==> r.progress == s.progress
    ensures s.progress >= 100.0 ==> r.progress == 100.0 && r.currentSize == s.totalSize
    ensures s.progress < 100.0 ==> r.currentSize == s.currentSize
    ensures r.totalSize == s.totalSize && r.kind == s.kind
  {
    SnapFile(
      Normalize(s.path),
      if s.progress <= 100.0 then s.progress else 100.0,
      if s.progress >= 100.0 then s.totalSize else s.currentSize,
      s.totalSize,
      s.kind)
  }

  /** A finished entry is published as complete. */
  lemma FinishedIsPublishedComplete(s: TransferStatus)
    ensures FileInfo(Complete(s)).progress == 100.0
    ensures FileInfo(Complete(s)).currentSize == FileInfo(Complete(s)).totalSize
  {
  }

  // ---------------------------------------------------------------------
  // Folder keys and the grouping of `/transfers`

  /** The folder key of a normalised path: the path up to and including
      its last `/` when that slash is not the first character, else "/". */
  function FolderKey(path: string): string {
    var k := LastIndexOf(path, '/');
    if k > 0 then path[..k + 1] else "/"
  }

  /** The folder key ends in `/`; when the path has a slash after its
      first character, the key is the prefix of the path up to its last
      slash, and otherwise it is "/". */
  lemma FolderKeyShape(path: string)
    ensures var r := FolderKey(path);
      && |r| >= 1 && r[|r| - 1] == '/'
      && ((exists i | 1 <= i < |path| :: path[i] == '/') ==>
            2 <= |r| <= |path| && r == path[..|r|] && '/' !in path[|r|..])
      && (!(exists i | 1 <= i < |path| :: path[i] == '/') ==> r == "/")
  {
    var k := LastIndexOf(path, '/');
    assert (exists i | 1 <= i < |path| :: path[i] == '/') <==> k > 0;
    if k > 0 {
      var tail := path[k + 1..];
      forall j | 0 <= j < |tail| ensures tail[j] != '/' {
        assert tail[j] == path[k + 1 + j];
      }
    }
  }

  lemma FolderKeyExamples()
    ensures FolderKey("/sdcard/a.txt") == "/sdcard/"
    ensures FolderKey("/a.txt") == "/"
    ensures FolderKey("a.txt") == "/"
  {
    assert "/sdcard/a.txt"[7] == '/';
    assert forall i | 8 <= i < 13 :: "/sdcard/a.txt"[i] != '/';
    assert "/sdcard/a.txt"[..8] == "/sdcard/";
  }

  /** The folder an entry is listed under. */
  function FolderOf(s: TransferStatus): string {
    FolderKey(Normalize(s.path))
  }

  /** The folder map while it is being built: one entry per folder in
      insertion order, each list holding the files newest first. */
  function PrependInsert(gs: seq<Group<string, SnapFile>>, k: string, f: SnapFile): seq<Group<string, SnapFile>> {
    match FindGroup(gs, k)
    case Some(j) => gs[j := Group(k, [f] + gs[j].members)]
    case None => gs + [Group(k, [f])]
  }

  /** The loop over the deque: put the folder key when it is new, then
      `add(0, createFileInfo(status))` to its list. */
  function FolderMap(q: seq<TransferStatus>): seq<Group<string, SnapFile>> {
    if q == [] then [] else PrependInsert(FolderMap(q[..|q| - 1]), FolderOf(q[|q| - 1]), FileInfo(q[|q| - 1]))
  }

  function ToSnapFolder(g: Group<string, SnapFile>): SnapFolder {
    SnapFolder(g.key, g.members)
  }

  /** `getCurrentTransferStatusJson` before serialisation: the folders of
      the folder map, emitted from the last inserted to the first. */
  function TransferSnapshot(q: seq<TransferStatus>): seq<SnapFolder> {
    Reverse(Map(FolderMap(q), ToSnapFolder))
  }

  /** The published view of a group of deque entries: each entry's file
      info, newest first. */
  function Published(g: Group<string, TransferStatus>): Group<string, SnapFile> {
    Group(g.key, Reverse(Map(g.members, FileInfo)))
  }

  function PublishedAll(gs: seq<Group<string, TransferStatus>>): (r: seq<Group<string, SnapFile>>)
    ensures |r| == |gs| && forall j | 0 <= j < |gs| :: r[j] == Published(gs[j])
  {
    Map(gs, Published)
  }

  lemma ReverseMapSnoc<T, U>(s: seq<T>, x: T, f: T -> U)
    ensures Reverse(Map(s + [x], f)) == [f(x)] + Reverse(Map(s, f))
  {
    var a, b := Reverse(Map(s + [x], f)), [f(x)] + Reverse(Map(s, f));
    forall i | 0 <= i < |a| ensures a[i] == b[i] {
      if i > 0 {
        assert (s + [x])[|s| - i] == s[|s| - i];
      }
    }
  }

  lemma FindGroupPublished(gs: seq<Group<string, TransferStatus>>, k: string)
    ensures FindGroup(PublishedAll(gs), k) == FindGroup(gs, k)
  {
    if gs != [] {
      assert PublishedAll(gs)[1..] == PublishedAll(gs[1..]);
      FindGroupPublished(gs[1..], k);
    }
  }

  /** Publishing commutes with one grouping step. */
  lemma PublishedInsert(gs: seq<Group<string, TransferStatus>>, s: TransferStatus)
    ensures PublishedAll(Insert(gs, s, FolderOf)) == PrependInsert(PublishedAll(gs), FolderOf(s), FileInfo(s))
  {
    FindGroupPublished(gs, FolderOf(s));
    match FindGroup(gs, FolderOf(s))
    case Some(j) =>
      ReverseMapSnoc(gs[j].members, s, FileInfo);
      var a := PublishedAll(Insert(gs, s, FolderOf));
      var b := PrependInsert(PublishedAll(gs), FolderOf(s), FileInfo(s));
      assert |a| == |b|;
      forall i | 0 <= i < |a| ensures a[i] == b[i] {
      }
    case None =>
      var a := PublishedAll(Insert(gs, s, FolderOf));
      var b := PrependInsert(PublishedAll(gs), FolderOf(s), FileInfo(s));
      assert Reverse(Map([s], FileInfo)) == [FileInfo(s)];
      assert |a| == |b|;
      forall i | 0 <= i < |a| ensures a[i] == b[i] {
      }
  }

  /** The folder map is the reference grouping of the deque by folder,
      each group published newest first. */
  lemma {:induction false} FolderMapIsGrouping(q: seq<TransferStatus>)
    ensures FolderMap(q) == PublishedAll(GroupBy(q, FolderOf))
  {
    if q != [] {
      FolderMapIsGrouping(q[..|q| - 1]);
      FolderMapGroupingStep(q);
    }
  }

  lemma FolderMapGroupingStep(q: seq<TransferStatus>)
    requires q != [] && FolderMap(q[..|q| - 1]) == PublishedAll(GroupBy(q[..|q| - 1], FolderOf))
    ensures FolderMap(q) == PublishedAll(GroupBy(q, FolderOf))
  {
    GroupByLast(q, FolderOf);
    PublishedInsert(GroupBy(q[..|q| - 1], FolderOf), q[|q| - 1]);
  }

  /** One published folder per distinct folder key. */
  lemma TransferSnapshotLength(q: seq<TransferStatus>)
    ensures |TransferSnapshot(q)| == |Keys(q, FolderOf)|
  {
    FolderMapIsGrouping(q);
  }

  /** The published folder of key `k`: the file infos of the deque
      entries with that key, newest first. */
  function FolderOfKey(q: seq<TransferStatus>, k: string): SnapFolder {
    SnapFolder(k, Reverse(Map(Members(q, FolderOf, k), FileInfo)))
  }

  /** The folder of the `j`-th key counted from the last. */
  function PublishedAt(q: seq<TransferStatus>, j: int): SnapFolder
    requires 0 <= j < |Keys(q, FolderOf)|
  {
    var ks := Keys(q, FolderOf);
    FolderOfKey(q, ks[|ks| - 1 - j])
  }

  /** The folder at position `j` of what `/transfers` publishes. */
  lemma TransferSnapshotAt(q: seq<TransferStatus>, j: nat)
    requires j < |Keys(q, FolderOf)|
    ensures |TransferSnapshot(q)| == |Keys(q, FolderOf)|
    ensures TransferSnapshot(q)[j] == PublishedAt(q, j)
  {
    FolderMapIsGrouping(q);
    var ks := Keys(q, FolderOf);
    var gs := GroupBy(q, FolderOf);
    var fm := FolderMap(q);
    var m := |ks| - 1 - j;
    assert gs[m] == Group(ks[m], Members(q, FolderOf, ks[m]));
    assert fm[m] == Published(gs[m]);
    var ms := Map(fm, ToSnapFolder);
    assert ms[m] == ToSnapFolder(fm[m]);
    assert Reverse(ms)[j] == ms[m];
  }

  /** What `/transfers` publishes: one folder per distinct folder key of
      the deque, folders in reverse order of first appearance, each holding
      exactly the file infos of its entries, newest first. */
  lemma TransferSnapshotShape(q: seq<TransferStatus>)
    ensures |TransferSnapshot(q)| == |Keys(q, FolderOf)|
    ensures forall j | 0 <= j < |TransferSnapshot(q)| :: TransferSnapshot(q)[j] == PublishedAt(q, j)
  {
    TransferSnapshotLength(q);
    forall j | 0 <= j < |TransferSnapshot(q)| ensures TransferSnapshot(q)[j] == PublishedAt(q, j) {
      TransferSnapshotAt(q, j);
    }
  }

  /** Every entry of the deque is published, in exactly one folder, as
      often as it occurs. */
  lemma TransferSnapshotPartitions(q: seq<TransferStatus>)
    ensures multiset(AllFiles(TransferSnapshot(q))) == multiset(Map(q, FileInfo))
  {
    FolderMapIsGrouping(q);
    var gs := GroupBy(q, FolderOf);
    GroupByPartitions(q, FolderOf);
    PublishedFlatten(gs);
    AllFilesReverse(Map(FolderMap(q), ToSnapFolder));
    AllFilesMap(FolderMap(q));
    MultisetMap(Flatten(gs), q, FileInfo);
  }

  /** Equal multisets stay equal under `Map`. */
  lemma {:induction false} MultisetMap<T, U>(a: seq<T>, b: seq<T>, f: T -> U)
    requires multiset(a) == multiset(b)
    ensures multiset(Map(a, f)) == multiset(Map(b, f))
  {
    if a != [] {
      var x := a[0];
      assert x in multiset(b);
      var k :| 0 <= k < |b| && b[k] == x;
      var b' := b[..k] + b[k + 1..];
      assert b == b[..k] + [x] + b[k + 1..];
      assert a == [x] + a[1..];
      assert multiset(b) == multiset(b') + multiset{x};
      assert multiset(a) == multiset(a[1..]) + multiset{x};
      MultisetCancel(multiset(a[1..]), multiset(b'), multiset{x});
      MultisetMap(a[1..], b', f);
      MapAppend(b[..k] + [x], b[k + 1..], f);
      MapAppend(b[..k], [x], f);
      MapAppend(b[..k], b[k + 1..], f);
      MapAppend([x], a[1..], f);
    }
  }

  /** No folder key is published twice. */
  lemma TransferSnapshotFoldersUnique(q: seq<TransferStatus>)
    ensures UniqueBy(TransferSnapshot(q), FolderName)
  {
    TransferSnapshotLength(q);
    var snap, ks := TransferSnapshot(q), Keys(q, FolderOf);
    forall j | 0 <= j < |snap| ensures snap[j].folder == ks[|ks| - 1 - j] {
      TransferSnapshotAt(q, j);
      PublishedAtFolder(q, j);
    }
    DistinctReversed(snap, ks);
  }

  lemma PublishedAtFolder(q: seq<TransferStatus>, j: nat)
    requires j < |Keys(q, FolderOf)|
    ensures PublishedAt(q, j).folder == Keys(q, FolderOf)[|Keys(q, FolderOf)| - 1 - j]
  {
  }

  lemma DistinctReversed(snap: seq<SnapFolder>, ks: seq<string>)
    requires |snap| == |ks| && Distinct(ks)
    requires forall j | 0 <= j < |snap| :: snap[j].folder == ks[|ks| - 1 - j]
    ensures UniqueBy(snap, FolderName)
  {
    forall j1, j2 | 0 <= j1 < j2 < |snap| ensures FolderName(snap[j1]) != FolderName(snap[j2]) {
      assert ks[|ks| - 1 - j2] != ks[|ks| - 1 - j1];
    }
  }

  /** A file is published only under its own folder key. */
  lemma TransferSnapshotFilesInOwnFolder(q: seq<TransferStatus>)
    ensures forall j | 0 <= j < |TransferSnapshot(q)| :: FilesInFolder(TransferSnapshot(q)[j])
  {
    TransferSnapshotLength(q);
    forall j | 0 <= j < |TransferSnapshot(q)| ensures FilesInFolder(TransferSnapshot(q)[j]) {
      TransferSnapshotAt(q, j);
      PublishedFilesInFolder(q, j);
    }
  }

  lemma PublishedFilesInFolder(q: seq<TransferStatus>, j: nat)
    requires j < |Keys(q, FolderOf)|
    ensures FilesInFolder(PublishedAt(q, j))
  {
    var ks := Keys(q, FolderOf);
    KeyFolderFilesInFolder(q, ks[|ks| - 1 - j]);
  }

  lemma KeyFolderFilesInFolder(q: seq<TransferStatus>, k: string)
    ensures FilesInFolder(FolderOfKey(q, k))
  {
    MembersInFolder(Members(q, FolderOf, k), k);
  }

  /** Every file of the folder has the folder's key. */
  predicate FilesInFolder(f: SnapFolder) {
    forall i | 0 <= i < |f.files| :: FolderKey(f.files[i].path) == f.folder
  }

  lemma MembersInFolder(m: seq<TransferStatus>, k: string)
    requires forall i | 0 <= i < |m| :: FolderOf(m[i]) == k
    ensures FilesInFolder(SnapFolder(k, Reverse(Map(m, FileInfo))))
  {
    forall i | 0 <= i < |m| ensures FolderKey(Reverse(Map(m, FileInfo))[i].path) == k {
      FileInOwnFolder(m, i);
    }
  }

  lemma FileInOwnFolder(m: seq<TransferStatus>, i: nat)
    requires i < |m|
    ensures FolderKey(Reverse(Map(m, FileInfo))[i].path) == FolderOf(m[|m| - 1 - i])
  {
    assert Reverse(Map(m, FileInfo))[i] == FileInfo(m[|m| - 1 - i]);
  }

  function FolderName(f: SnapFolder): string { f.folder }

  lemma {:induction false} AllFilesAppend(a: seq<SnapFolder>, b: seq<SnapFolder>)
    ensures AllFiles(a + b) == AllFiles(a) + AllFiles(b)
  {
    if a != [] {
      calc {
        AllFiles(a + b);
        { assert (a + b)[0] == a[0] && (a + b)[1..] == a[1..] + b; }
        a[0].files + AllFiles(a[1..] + b);
        { AllFilesAppend(a[1..], b); }
        a[0].files + (AllFiles(a[1..]) + AllFiles(b));
        { AppendAssoc(a[0].files, AllFiles(a[1..]), AllFiles(b)); }
        AllFiles(a) + AllFiles(b);
      }
    } else {
      assert a + b == b;
    }
  }

  lemma {:induction false} AllFilesReverse(fs: seq<SnapFolder>)
    ensures multiset(AllFiles(Reverse(fs))) == multiset(AllFiles(fs))
  {
    if fs != [] {
      AllFilesReverse(fs[1..]);
      assert Reverse(fs) == Reverse(fs[1..]) + [fs[0]];
      AllFilesAppend(Reverse(fs[1..]), [fs[0]]);
      assert AllFiles([fs[0]]) == fs[0].files;
    }
  }

  lemma {:induction false} AllFilesMap(gs: seq<Group<string, SnapFile>>)
    ensures AllFiles(Map(gs, ToSnapFolder)) == Flatten(gs)
  {
    if gs != [] {
      assert Map(gs, ToSnapFolder)[1..] == Map(gs[1..], ToSnapFolder);
      AllFilesMap(gs[1..]);
    }
  }

  lemma {:induction false} MultisetMapFileInfo(a: seq<TransferStatus>)
    ensures multiset(Map(a, FileInfo)) == multiset(Map(Reverse(a), FileInfo))
  {
    var m, r := Map(a, FileInfo), Map(Reverse(a), FileInfo);
    assert r == Reverse(m);
    ReverseMultiset(m);
  }

  lemma {:induction false} PublishedFlatten(gs: seq<Group<string, TransferStatus>>)
    ensures multiset(Flatten(PublishedAll(gs))) == multiset(Map(Flatten(gs), FileInfo))
  {
    if gs != [] {
      var m, rest := gs[0].members, Flatten(gs[1..]);
      PublishedFlatten(gs[1..]);
      assert PublishedAll(gs)[1..] == PublishedAll(gs[1..]);
      assert Flatten(PublishedAll(gs)) == Reverse(Map(m, FileInfo)) + Flatten(PublishedAll(gs[1..]));
      ReverseMultiset(Map(m, FileInfo));
      assert Flatten(gs) == m + rest;
      MapAppend(m, rest, FileInfo);
    }
  }

  lemma MapAppend<T, U>(a: seq<T>, b: seq<T>, f: T -> U)
    ensures Map(a + b, f) == Map(a, f) + Map(b, f)
  {
  }

  // ---------------------------------------------------------------------
  // Channel speeds

  datatype SpeedInfo = SpeedInfo(channel: string, upload: real, download: real)

  function ChannelOf(s: SpeedInfo): string { s.channel }

  /** `updateSpeedInfo`: a null channel leaves the list alone; otherwise
      the channel's old entry is dropped and the new one appended. */
  function UpdateSpeedInfo(q: seq<SpeedInfo>, channel: Option<string>, upload: real, download: real): (r: seq<SpeedInfo>)
    ensures channel.None? ==> r == q
    ensures channel.Some? ==>
              && 1 <= |r| <= |q| + 1
              && r[|r| - 1] == SpeedInfo(channel.value, upload, download)
              && (forall i | 0 <= i < |r| - 1 :: r[i].channel != channel.value && r[i] in q)
              && (forall j | 0 <= j < |q| && q[j].channel != channel.value :: q[j] in r)
              && r[..|r| - 1] == Filter(q, (e: SpeedInfo) => e.channel != channel.value)
  {
    match channel
    case None => q
    case Some(c) =>
      RemoveKeyIsFilter(q, ChannelOf, c, (e: SpeedInfo) => e.channel != c);
      var r := RemoveKey(q, ChannelOf, c) + [SpeedInfo(c, upload, download)];
      assert r[..|r| - 1] == RemoveKey(q, ChannelOf, c);
      r
  }

  /** At most one entry per channel, before and after. */
  lemma UpdateSpeedKeepsChannelsUnique(q: seq<SpeedInfo>, channel: Option<string>, upload: real, download: real)
    requires UniqueBy(q, ChannelOf)
    ensures UniqueBy(UpdateSpeedInfo(q, channel, upload, download), ChannelOf)
  {
    if channel.Some? {
      var c := channel.value;
      RemoveKeyUnique(q, ChannelOf, c);
      var rest := RemoveKey(q, ChannelOf, c);
      var r := rest + [SpeedInfo(c, upload, download)];
      forall i, j | 0 <= i < j < |r| ensures r[i].channel != r[j].channel {
        if j < |rest| {
          assert r[i] == rest[i] && r[j] == rest[j];
        } else {
          assert r[i] == rest[i];
        }
      }
    }
  }

  // ---------------------------------------------------------------------
  // Connection events

  datatype ConnectionStatus = ConnectionStatus(eventType: string, message: string, timestamp: int)

  const MaxConnectionStatuses: nat := 100

  /** `updateConnectionStatus`: append the event (stamped with the clock
      reading passed in) and, when the log has grown past 100, drop its
      oldest entry. */
  function UpdateConnectionStatus(q: seq<ConnectionStatus>, eventType: string, message: string, now: int): (r: seq<ConnectionStatus>)
    ensures |q| < MaxConnectionStatuses ==> |r| == |q| + 1
    ensures |q| >= MaxConnectionStatuses ==> |r| == |q|
    ensures |q| <= MaxConnectionStatuses ==> |r| <= MaxConnectionStatuses
    ensures r == (q + [ConnectionStatus(eventType, message, now)])[|q| + 1 - |r|..]
  {
    var q' := q + [ConnectionStatus(eventType, message, now)];
    if |q'| > MaxConnectionStatuses then q'[1..] else q'
  }

  function Stamp(e: (string, string, int)): ConnectionStatus {
    ConnectionStatus(e.0, e.1, e.2)
  }

  /** The log after a run of `updateConnectionStatus` calls. */
  function ConnectionLog(events: seq<(string, string, int)>): seq<ConnectionStatus> {
    if events == [] then []
    else
      var e := events[|events| - 1];
      UpdateConnectionStatus(ConnectionLog(events[..|events| - 1]), e.0, e.1, e.2)
  }

  /** How many of `count` events the log retains. */
  function Retained(count: nat): nat {
    if count < MaxConnectionStatuses then count else MaxConnectionStatuses
  }

  /** Any run of events starting from the empty log keeps exactly the most
      recent 100 of them (all of them while there are fewer), oldest first. */
  lemma {:induction false} ConnectionLogBounded(events: seq<(string, string, int)>)
    ensures ConnectionLog(events) == Map(events[|events| - Retained(|events|)..], Stamp)
  {
    if events != [] {
      var init, e := events[..|events| - 1], events[|events| - 1];
      ConnectionLogBounded(init);
      var a := |init| - Retained(|init|);
      var q := ConnectionLog(init);
      var q' := q + [Stamp(e)];
      assert ConnectionLog(events) == UpdateConnectionStatus(q, e.0, e.1, e.2);
      SliceSnoc(events, a);
      MapAppend(init[a..], [e], Stamp);
      assert q' == Map(events[a..], Stamp);
      if |q'| > MaxConnectionStatuses {
        assert ConnectionLog(events) == q'[1..];
        assert events[a..][1..] == events[a + 1..];
        MapDrop(events[a..], Stamp);
      } else {
        assert ConnectionLog(events) == q';
      }
    }
  }

  lemma SliceSnoc<T>(s: seq<T>, a: nat)
    requires a < |s|
    ensures s[..|s| - 1][a..] + [s[|s| - 1]] == s[a..]
  {
  }

  lemma MapDrop<T, U>(s: seq<T>, f: T -> U)
    requires s != []
    ensures Map(s, f)[1..] == Map(s[1..], f)
  {
  }
}
