/** The older single-file dashboard: every snapshot rebuilds the live pane
    from nothing. Folders are looked up by id while the pane is rebuilt,
    so a later transfer whose folder encodes to the same id replaces the
    items of the earlier one. Its file items are built exactly as in the
    live pane. */
module LegacyView {
  import opened Common
  import opened Utils
  import opened Snapshot
  import opened Grouping
  import opened LiveView

  /** A folder of the rebuilt pane. Its content is rebuilt from the files
      it was last filled with (`files`): see `Items` and `EmptyNotice`. */
  datatype LegacyFolder = LegacyFolder(path: string, id: string, expanded: bool, files: seq<SnapFile>)

  datatype LegacyPane = Placeholder(text: string) | Rebuilt(folders: seq<LegacyFolder>)

  const NoTransfers: string := "没有正在进行的文件传输"

  function TransferId(t: SnapFolder): string { EncodeFolderId(t.folder) }

  function LegacyId(f: LegacyFolder): string { f.id }

  /** One new item per file, in order. */
  function CreateAll(files: seq<SnapFile>, formatNonZero: real -> string): (r: seq<ItemView>)
    ensures |r| == |files|
    ensures forall i | 0 <= i < |files| :: r[i] == CreateItem(files[i], formatNonZero)
  {
    seq(|files|, i requires 0 <= i < |files| => CreateItem(files[i], formatNonZero))
  }

  /** The folder's items: one new item per file it was last filled with. */
  function Items(f: LegacyFolder, formatNonZero: real -> string): seq<ItemView> {
    CreateAll(f.files, formatNonZero)
  }

  /** The folder shows the "empty folder" notice instead of items. */
  predicate EmptyNotice(f: LegacyFolder) {
    f.files == []
  }

  /** The first folder with id `id`. */
  function FindLegacy(fs: seq<LegacyFolder>, id: string): (r: Option<nat>)
    ensures r.Some? ==> r.value < |fs| && fs[r.value].id == id
    ensures r.None? ==> forall j | 0 <= j < |fs| :: fs[j].id != id
  {
    if fs == [] then None
    else if fs[0].id == id then Some(0)
    else match FindLegacy(fs[1..], id)
      case Some(j) => Some(j + 1)
      case None => None
  }

  /** One transfer: the folder with its id, or a new one at the end
      (expanded when it is the first); its content is cleared and refilled
      from the transfer's files. */
  function LegacyStep(fs: seq<LegacyFolder>, t: SnapFolder): seq<LegacyFolder> {
    var id := TransferId(t);
    match FindLegacy(fs, id)
    case Some(j) => fs[j := fs[j].(files := t.files)]
    case None => fs + [LegacyFolder(t.folder, id, fs == [], t.files)]
  }

  function LegacyFold(ts: seq<SnapFolder>): seq<LegacyFolder> {
    if ts == [] then [] else LegacyStep(LegacyFold(ts[..|ts| - 1]), ts[|ts| - 1])
  }

  /** `processData` of the older dashboard. */
  function ProcessDataLegacy(data: Snapshot): (r: LegacyPane)
    ensures r.Placeholder? <==> data.None? || data.value == []
    ensures r.Placeholder? ==> r.text == NoTransfers
  {
    match data
    case None => Placeholder(NoTransfers)
    case Some(ts) => if ts == [] then Placeholder(NoTransfers) else Rebuilt(LegacyFold(ts))
  }

  /** What the rebuilt folder for id `k` holds: the path of the first
      transfer with that id, the files of the last one. */
  predicate FolderFor(f: LegacyFolder, ts: seq<SnapFolder>, k: string, first: bool) {
    var m := Members(ts, TransferId, k);
    && m != []
    && f.id == k
    && f.path == m[0].folder
    && f.files == m[|m| - 1].files
    && f.expanded == first
  }

  /** The rebuilt pane in closed form: one folder per distinct id, in order
      of first appearance, showing the path of the first transfer with that
      id and the files of the last; only the first folder is expanded. */
  lemma {:induction false} LegacyFoldClosedForm(ts: seq<SnapFolder>)
    ensures var r, ks := LegacyFold(ts), Keys(ts, TransferId);
      |r| == |ks| && forall j | 0 <= j < |r| :: FolderFor(r[j], ts, ks[j], j == 0)
  {
    if ts != [] {
      var init, t := ts[..|ts| - 1], ts[|ts| - 1];
      assert init + [t] == ts;
      LegacyFoldClosedForm(init);
      KeysSnoc(ts, TransferId);
      var r0, ks0 := LegacyFold(init), Keys(init, TransferId);
      var r, ks := LegacyFold(ts), Keys(ts, TransferId);
      var k := TransferId(t);
      match FindLegacy(r0, k)
      case Some(j0) =>
        LegacyOldId(init, t, j0);
      case None =>
        assert k !in ks0 by {
          forall j | 0 <= j < |ks0| ensures ks0[j] != k {
            assert r0[j].id == ks0[j];
          }
        }
        NoMembers(init, TransferId, k);
        LegacyNewId(init, t);
    }
  }

  /** One folder across one more transfer `t`: refilled from `t` when it
      has `t`'s id, else untouched. */
  lemma FolderForSnoc(init: seq<SnapFolder>, t: SnapFolder, f: LegacyFolder, k: string, first: bool)
    requires FolderFor(f, init, k, first)
    ensures FolderFor(if k == TransferId(t) then f.(files := t.files) else f, init + [t], k, first)
  {
    MembersSnoc(init, t, TransferId, k);
  }

  /** A new folder for a transfer whose id was not seen before. */
  lemma FolderForNew(init: seq<SnapFolder>, t: SnapFolder, first: bool)
    requires Members(init, TransferId, TransferId(t)) == []
    ensures FolderFor(LegacyFolder(t.folder, TransferId(t), first, t.files), init + [t], TransferId(t), first)
  {
    MembersSnoc(init, t, TransferId, TransferId(t));
  }

  lemma LegacyOldId(init: seq<SnapFolder>, t: SnapFolder, j0: nat)
    requires var r0, ks0 := LegacyFold(init), Keys(init, TransferId);
      |r0| == |ks0| && (forall j | 0 <= j < |r0| :: FolderFor(r0[j], init, ks0[j], j == 0))
    requires FindLegacy(LegacyFold(init), TransferId(t)) == Some(j0)
    ensures var r, ks := LegacyFold(init + [t]), Keys(init + [t], TransferId);
      |r| == |ks| && forall j | 0 <= j < |r| :: FolderFor(r[j], init + [t], ks[j], j == 0)
  {
    var ts := init + [t];
    assert ts[..|ts| - 1] == init;
    KeysSnoc(ts, TransferId);
    var r0, ks0 := LegacyFold(init), Keys(init, TransferId);
    assert ks0[j0] == TransferId(t);
    OldIdFolders(init, t, r0, ks0, j0);
  }

  /** The folders after a transfer whose id has a folder already. */
  lemma OldIdFolders(init: seq<SnapFolder>, t: SnapFolder, r0: seq<LegacyFolder>, ks0: seq<string>, j0: nat)
    requires |r0| == |ks0| && (forall j | 0 <= j < |r0| :: FolderFor(r0[j], init, ks0[j], j == 0))
    requires Distinct(ks0) && j0 < |ks0| && ks0[j0] == TransferId(t)
    ensures var r := r0[j0 := r0[j0].(files := t.files)];
      forall j | 0 <= j < |r| :: FolderFor(r[j], init + [t], ks0[j], j == 0)
  {
    var r := r0[j0 := r0[j0].(files := t.files)];
    forall j | 0 <= j < |r| ensures FolderFor(r[j], init + [t], ks0[j], j == 0) {
      FolderForSnoc(init, t, r0[j], ks0[j], j == 0);
      assert ks0[j] == TransferId(t) <==> j == j0;
    }
  }

  lemma LegacyNewId(init: seq<SnapFolder>, t: SnapFolder)
    requires var r0, ks0 := LegacyFold(init), Keys(init, TransferId);
      |r0| == |ks0| && (forall j | 0 <= j < |r0| :: FolderFor(r0[j], init, ks0[j], j == 0))
    requires FindLegacy(LegacyFold(init), TransferId(t)).None?
    requires TransferId(t) !in Keys(init, TransferId) && Members(init, TransferId, TransferId(t)) == []
    ensures var r, ks := LegacyFold(init + [t]), Keys(init + [t], TransferId);
      |r| == |ks| && forall j | 0 <= j < |r| :: FolderFor(r[j], init + [t], ks[j], j == 0)
  {
    var ts := init + [t];
    assert ts[..|ts| - 1] == init;
    KeysSnoc(ts, TransferId);
    var r0, ks0 := LegacyFold(init), Keys(init, TransferId);
    assert Keys(ts, TransferId) == ks0 + [TransferId(t)];
    NewIdFolders(init, t, r0, ks0);
  }

  /** The folders after a transfer whose id is new: one more at the end. */
  lemma NewIdFolders(init: seq<SnapFolder>, t: SnapFolder, r0: seq<LegacyFolder>, ks0: seq<string>)
    requires |r0| == |ks0| && (forall j | 0 <= j < |r0| :: FolderFor(r0[j], init, ks0[j], j == 0))
    requires TransferId(t) !in ks0 && Members(init, TransferId, TransferId(t)) == []
    ensures var r, ks := r0 + [LegacyFolder(t.folder, TransferId(t), r0 == [], t.files)], ks0 + [TransferId(t)];
      forall j | 0 <= j < |r| :: FolderFor(r[j], init + [t], ks[j], j == 0)
  {
    var k := TransferId(t);
    var r, ks := r0 + [LegacyFolder(t.folder, k, r0 == [], t.files)], ks0 + [k];
    forall j | 0 <= j < |r| ensures FolderFor(r[j], init + [t], ks[j], j == 0) {
      if j < |r0| {
        assert r[j] == r0[j] && ks[j] == ks0[j];
        FolderForSnoc(init, t, r0[j], ks0[j], j == 0);
        assert ks0[j] != k;
      } else {
        FolderForNew(init, t, r0 == []);
      }
    }
  }

  /** Every transfer of the snapshot has a folder in the rebuilt pane, no
      two folders share an id, and only the first is expanded. */
  lemma LegacyShowsEveryTransfer(ts: seq<SnapFolder>)
    ensures var r := LegacyFold(ts);
      && (forall i | 0 <= i < |ts| :: FindLegacy(r, TransferId(ts[i])).Some?)
      && UniqueBy(r, LegacyId)
      && (forall j | 0 <= j < |r| :: r[j].expanded <==> j == 0)
  {
    LegacyFoldClosedForm(ts);
    var r, ks := LegacyFold(ts), Keys(ts, TransferId);
    forall i | 0 <= i < |ts| ensures FindLegacy(r, TransferId(ts[i])).Some? {
      KeysComplete(ts, TransferId);
      var j :| 0 <= j < |ks| && ks[j] == TransferId(ts[i]);
      assert FolderFor(r[j], ts, ks[j], j == 0);
    }
    forall i, j | 0 <= i < j < |r| ensures LegacyId(r[i]) != LegacyId(r[j]) {
      assert FolderFor(r[i], ts, ks[i], i == 0);
      assert FolderFor(r[j], ts, ks[j], j == 0);
    }
    forall j | 0 <= j < |r| ensures r[j].expanded <==> j == 0 {
      assert FolderFor(r[j], ts, ks[j], j == 0);
    }
  }
}
