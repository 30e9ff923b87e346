/** Selecting and deleting history entries: the folder checkboxes, the
    "select all" button, and the deletion of the selected records from the
    record store. The checkbox state of the history pane is a sequence of
    folders, each with its file checkboxes; the user's answers and the
    outcome of the store transaction are parameters. */
module Selection {
  import opened Common
  import opened Utils
  import opened Snapshot
  import opened History

  /** A file checkbox: the full path it carries, and whether it is ticked. */
  datatype SelFile = SelFile(path: string, checked: bool)

  /** A folder of the history pane with its checkboxes. */
  datatype SelFolder = SelFolder(folderPath: string, id: string, expanded: bool, checked: bool, files: seq<SelFile>)

  const SelectAllLabel: string := "全选"
  const DeselectAllLabel: string := "取消全选"
  const NothingSelected: string := "请先选择要删除的文件或文件夹"
  const DeleteFailed: string := "删除文件失败！"

  function FolderIdOf(folderPath: string): string {
    "history-folder-" + EncodeFolderId(folderPath)
  }

  /** The checkboxes of a freshly rendered history pane: one per folder and
      one per record, none ticked. */
  function Selectable(fs: seq<HistoryFolder>): (r: seq<SelFolder>)
    ensures |r| == |fs|
    ensures forall j | 0 <= j < |fs| ::
              && r[j].folderPath == fs[j].folderPath && r[j].id == fs[j].id && r[j].expanded == fs[j].expanded
              && !r[j].checked && |r[j].files| == |fs[j].records|
    ensures forall j, i | 0 <= j < |fs| && 0 <= i < |fs[j].records| ::
              r[j].files[i] == SelFile(fs[j].records[i].path, false)
  {
    seq(|fs|, j requires 0 <= j < |fs| =>
      SelFolder(fs[j].folderPath, fs[j].id, fs[j].expanded, false,
        seq(|fs[j].records|, i requires 0 <= i < |fs[j].records| => SelFile(fs[j].records[i].path, false))))
  }

  /** The rendered pane gives every folder the id of its path. */
  lemma RenderedIds(rs: seq<Record>)
    requires rs != []
    ensures var fs := RenderHistory(rs).folders;
      forall j | 0 <= j < |fs| :: fs[j].id == FolderIdOf(fs[j].folderPath)
  {
  }

  // ---------------------------------------------------------------------
  // Folder checkbox

  /** Every file checkbox set to `c`. */
  function SetAll(files: seq<SelFile>, c: bool): (r: seq<SelFile>)
    ensures |r| == |files|
    ensures forall i | 0 <= i < |files| :: r[i] == SelFile(files[i].path, c)
  {
    seq(|files|, i requires 0 <= i < |files| => SelFile(files[i].path, c))
  }

  /** `document.getElementById`: the first folder with that id. */
  function FindById(fs: seq<SelFolder>, id: string): (r: Option<nat>)
    ensures r.Some? ==> r.value < |fs| && fs[r.value].id == id
    ensures r.Some? ==> forall k | 0 <= k < r.value :: fs[k].id != id
    ensures r.None? ==> forall k | 0 <= k < |fs| :: fs[k].id != id
  {
    if fs == [] then None
    else if fs[0].id == id then Some(0)
    else match FindById(fs[1..], id)
      case Some(k) => Some(k + 1)
      case None => None
  }

  /** A click on the folder checkbox as written: the box of folder `j` now
      shows `c`, and since the box sits inside the folder header, the
      header's own listener flips the folder's expansion first. Then the
      document-level handler looks the folder up by the id its path encodes
      to, expands it, and sets all its file boxes to `c`. When no folder
      has that id the handler fails after the box and the expansion have
      changed. */
  function FolderCheckAsWritten(fs: seq<SelFolder>, j: nat, c: bool): (r: seq<SelFolder>)
    requires j < |fs|
    ensures |r| == |fs|
    ensures r[j].checked == c
    ensures FindById(fs, FolderIdOf(fs[j].folderPath)).None? ==> r[j].expanded == !fs[j].expanded
  {
    var fs1 := fs[j := fs[j].(checked := c, expanded := !fs[j].expanded)];
    match FindById(fs1, FolderIdOf(fs[j].folderPath))
    case None => fs1
    case Some(k) => fs1[k := fs1[k].(expanded := true, files := SetAll(fs1[k].files, c))]
  }

  /** The folder checkbox as intended: the clicked folder is expanded and
      its own file boxes take the new state. */
  function FolderCheck(fs: seq<SelFolder>, j: nat, c: bool): (r: seq<SelFolder>)
    requires j < |fs|
    ensures |r| == |fs|
    ensures r[j].checked == c && r[j].expanded && r[j].folderPath == fs[j].folderPath
    ensures |r[j].files| == |fs[j].files|
    ensures forall i | 0 <= i < |fs[j].files| :: r[j].files[i] == SelFile(fs[j].files[i].path, c)
    ensures forall k | 0 <= k < |fs| && k != j :: r[k] == fs[k]
  {
    fs[j := fs[j].(checked := c, expanded := true, files := SetAll(fs[j].files, c))]
  }

  /** Folder ids match paths and are unique, as in a pane rendered from
      paths that encode to different ids. */
  predicate IdsCoherent(fs: seq<SelFolder>) {
    && (forall j | 0 <= j < |fs| :: fs[j].id == FolderIdOf(fs[j].folderPath))
    && (forall j, k | 0 <= j < k < |fs| :: fs[j].id != fs[k].id)
  }

  /** When no two folders share an id, the handler acts on the clicked
      folder. */
  lemma FolderCheckAgrees(fs: seq<SelFolder>, j: nat, c: bool)
    requires j < |fs| && IdsCoherent(fs)
    ensures FolderCheckAsWritten(fs, j, c) == FolderCheck(fs, j, c)
  {
    var fs1 := fs[j := fs[j].(checked := c, expanded := !fs[j].expanded)];
    var id := FolderIdOf(fs[j].folderPath);
    assert forall k | 0 <= k < |fs1| && k != j :: fs1[k].id != id by {
      forall k | 0 <= k < |fs1| && k != j ensures fs1[k].id != id {
        assert fs1[k] == fs[k];
      }
    }
    FindOnlyId(fs1, id, j);
  }

  /** A folder whose id no other folder has is the one found. */
  lemma FindOnlyId(fs: seq<SelFolder>, id: string, j: nat)
    requires j < |fs| && fs[j].id == id
    requires forall k | 0 <= k < |fs| && k != j :: fs[k].id != id
    ensures FindById(fs, id) == Some(j)
  {
  }

  function TwoFolders(p1: string, p2: string): seq<SelFolder> {
    [SelFolder(p1, FolderIdOf(p1), true, false, [SelFile(p1 + "x", false)]),
     SelFolder(p2, FolderIdOf(p2), false, false, [SelFile(p2 + "y", false)])]
  }

  /** Two folders whose paths encode to the same id: ticking the second
      folder's box ticks the first folder's files and leaves its own files
      unticked; the second folder is expanded only by its header's toggle. */
  lemma FolderCheckAsWrittenWrongFolder()
    ensures var fs := TwoFolders("/a/", ".a/");
      var r := FolderCheckAsWritten(fs, 1, true);
      && r[1].checked && !r[1].files[0].checked && r[1].expanded
      && r[0].files[0].checked
      && FolderCheck(fs, 1, true)[1].files[0].checked
  {
    EncodeNotInjective();
    var fs := TwoFolders("/a/", ".a/");
    var fs1 := fs[1 := fs[1].(checked := true, expanded := true)];
    assert FindById(fs1, FolderIdOf(".a/")) == Some(0);
  }

  // ---------------------------------------------------------------------
  // Select all

  /** `toggleSelectAll`: when the button reads "全选" every box is ticked,
      otherwise every box is cleared; every folder is expanded and the
      button switches its label. */
  function ToggleSelectAll(fs: seq<SelFolder>, button: string): (r: (seq<SelFolder>, string))
    ensures |r.0| == |fs|
    ensures forall j | 0 <= j < |fs| ::
              && r.0[j].folderPath == fs[j].folderPath && r.0[j].id == fs[j].id
              && r.0[j].expanded && r.0[j].checked == (button == SelectAllLabel)
              && |r.0[j].files| == |fs[j].files|
    ensures forall j, i | 0 <= j < |fs| && 0 <= i < |fs[j].files| ::
              r.0[j].files[i] == SelFile(fs[j].files[i].path, button == SelectAllLabel)
    ensures r.1 == if button == SelectAllLabel then DeselectAllLabel else SelectAllLabel
  {
    var on := button == SelectAllLabel;
    (seq(|fs|, j requires 0 <= j < |fs| => fs[j].(expanded := true, checked := on, files := SetAll(fs[j].files, on))),
     if on then DeselectAllLabel else SelectAllLabel)
  }

  /** Pressing the button twice from "全选" clears every box and restores
      the label. */
  lemma ToggleTwice(fs: seq<SelFolder>)
    ensures var once := ToggleSelectAll(fs, SelectAllLabel);
      var twice := ToggleSelectAll(once.0, once.1);
      && twice.1 == SelectAllLabel
      && SelectedFiles(twice.0) == [] && SelectedFolders(twice.0) == []
  {
    var once := ToggleSelectAll(fs, SelectAllLabel);
    var twice := ToggleSelectAll(once.0, once.1);
    NoneTicked(twice.0);
  }

  // ---------------------------------------------------------------------
  // Selected paths

  /** The paths of the ticked file boxes, in document order. */
  function TickedFiles(files: seq<SelFile>): (r: seq<string>)
    ensures forall p :: p in r <==> exists i | 0 <= i < |files| :: files[i].checked && files[i].path == p
  {
    if files == [] then []
    else (if files[0].checked then [files[0].path] else []) + TickedFiles(files[1..])
  }

  function SelectedFiles(fs: seq<SelFolder>): (r: seq<string>)
    ensures forall p :: p in r <==>
              exists j, i | 0 <= j < |fs| && 0 <= i < |fs[j].files| :: fs[j].files[i].checked && fs[j].files[i].path == p
  {
    if fs == [] then []
    else
      var r := TickedFiles(fs[0].files) + SelectedFiles(fs[1..]);
      assert forall p | p in SelectedFiles(fs[1..]) ::
        exists j, i | 0 <= j < |fs| && 0 <= i < |fs[j].files| :: fs[j].files[i].checked && fs[j].files[i].path == p by {
        forall p | p in SelectedFiles(fs[1..])
          ensures exists j, i | 0 <= j < |fs| && 0 <= i < |fs[j].files| :: fs[j].files[i].checked && fs[j].files[i].path == p
        {
          var j, i :| 0 <= j < |fs[1..]| && 0 <= i < |fs[1..][j].files| && fs[1..][j].files[i].checked && fs[1..][j].files[i].path == p;
          assert fs[j + 1] == fs[1..][j];
        }
      }
      r
  }

  /** The folder paths of the ticked folder boxes, in document order. */
  function SelectedFolders(fs: seq<SelFolder>): (r: seq<string>)
    ensures forall p :: p in r <==> exists j | 0 <= j < |fs| :: fs[j].checked && fs[j].folderPath == p
  {
    if fs == [] then []
    else
      assert forall j | 0 <= j < |fs[1..]| :: fs[1..][j] == fs[j + 1];
      (if fs[0].checked then [fs[0].folderPath] else []) + SelectedFolders(fs[1..])
  }

  lemma NoneTicked(fs: seq<SelFolder>)
    requires forall j | 0 <= j < |fs| :: !fs[j].checked
    requires forall j, i | 0 <= j < |fs| && 0 <= i < |fs[j].files| :: !fs[j].files[i].checked
    ensures SelectedFiles(fs) == [] && SelectedFolders(fs) == []
  {
    if SelectedFiles(fs) != [] {
      assert SelectedFiles(fs)[0] in SelectedFiles(fs);
    }
    if SelectedFolders(fs) != [] {
      assert SelectedFolders(fs)[0] in SelectedFolders(fs);
    }
  }

  // ---------------------------------------------------------------------
  // Deleting

  /** Whether `deleteRecordsFromDB` deletes a record: its file name is the
      last path segment of a selected file, or its folder path is a
      selected folder. */
  predicate Deleted(x: Record, filePaths: seq<string>, folderPaths: seq<string>) {
    (exists p | p in filePaths :: FileName(p) == x.fileName) || x.folderPath in folderPaths
  }

  function Kept(filePaths: seq<string>, folderPaths: seq<string>): Record -> bool {
    (x: Record) => !Deleted(x, filePaths, folderPaths)
  }

  /** `deleteRecordsFromDB` when its transaction completes: every record
      matched by one of the cursors is gone, the rest keep their order. */
  function DeleteRecords(store: seq<Record>, filePaths: seq<string>, folderPaths: seq<string>): (r: seq<Record>)
    ensures forall x :: x in r <==> x in store && !Deleted(x, filePaths, folderPaths)
  {
    Filter(store, Kept(filePaths, folderPaths))
  }

  /** Deleting the same selection again removes nothing more. */
  lemma DeleteRecordsIdempotent(store: seq<Record>, filePaths: seq<string>, folderPaths: seq<string>)
    ensures var once := DeleteRecords(store, filePaths, folderPaths);
      DeleteRecords(once, filePaths, folderPaths) == once
  {
    var once := DeleteRecords(store, filePaths, folderPaths);
    FilterAll(once, Kept(filePaths, folderPaths));
  }

  /** An empty selection deletes nothing. */
  lemma DeleteNothing(store: seq<Record>)
    ensures DeleteRecords(store, [], []) == store
  {
    FilterAll(store, Kept([], []));
  }

  /** Selecting one file deletes every record with that file name, in
      whatever folder it was saved. */
  lemma DeleteByNameReachesOtherFolders(x: Record, y: Record, path: string)
    requires FileName(path) == x.fileName == y.fileName && x.folderPath != y.folderPath
    ensures x !in DeleteRecords([x, y], [path], []) && y !in DeleteRecords([x, y], [path], [])
  {
    assert path in [path];
  }

  /** What `deleteSelectedFiles` leaves: the store, an alert if one was
      shown, whether the history is reloaded, and the button label. */
  datatype DeleteResult = DeleteResult(store: seq<Record>, alert: Option<string>, reload: bool, button: string)

  /** `deleteSelectedFiles`: nothing without a store; an alert when no box
      is ticked; nothing when the user declines; otherwise the records are
      deleted (the result of deleting the files on disk is ignored), the
      history reloaded and the button reset, or, when the transaction
      fails, the store is left as it was and an alert is shown. */
  function DeleteSelected(store: seq<Record>, fs: seq<SelFolder>, button: string, dbOpen: bool, confirmed: bool, txOk: bool): (r: DeleteResult)
    ensures !dbOpen ==> r == DeleteResult(store, None, false, button)
    ensures dbOpen && SelectedFiles(fs) == [] && SelectedFolders(fs) == [] ==>
              r == DeleteResult(store, Some(NothingSelected), false, button)
    ensures r.alert.Some? || !r.reload ==> r.store == store
    ensures r.reload <==> dbOpen && (SelectedFiles(fs) != [] || SelectedFolders(fs) != []) && confirmed && txOk
    ensures r.reload ==> (r.button == SelectAllLabel && r.alert.None? &&
              forall x :: x in r.store <==> x in store && !Deleted(x, SelectedFiles(fs), SelectedFolders(fs)))
  {
    var files, folders := SelectedFiles(fs), SelectedFolders(fs);
    if !dbOpen then DeleteResult(store, None, false, button)
    else if files == [] && folders == [] then DeleteResult(store, Some(NothingSelected), false, button)
    else if !confirmed then DeleteResult(store, None, false, button)
    else if !txOk then DeleteResult(store, Some(DeleteFailed), false, button)
    else DeleteResult(DeleteRecords(store, files, folders), None, true, SelectAllLabel)
  }

  /** Ticking a folder's box and confirming the deletion removes every
      record saved under that folder. */
  lemma CheckFolderThenDelete(store: seq<Record>, fs: seq<SelFolder>, j: nat, button: string)
    requires j < |fs|
    ensures var r := DeleteSelected(store, FolderCheck(fs, j, true), button, true, true, true);
      r.reload && forall x | x in r.store :: x.folderPath != fs[j].folderPath
  {
    var ticked := FolderCheck(fs, j, true);
    assert fs[j].folderPath in SelectedFolders(ticked);
  }
}
