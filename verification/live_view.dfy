/** The live pane of the dashboard: the folders and file items built from
    each fetched snapshot. An item is modelled by the values the page reads
    back from it (its data attributes, the progress bar width and the texts
    of its status and size labels); a folder by its identifier, its expanded
    flag and its items. The pane is reconciled incrementally: nothing is
    ever removed from it while transfers are listed. */
module LiveView {
  import opened Common
  import opened Utils
  import opened Snapshot

  // ---------------------------------------------------------------------
  // Status of one file

  datatype Status = Completed | Uploading | Downloading | Queued

  /** The status a file is shown with: exactly 100 is complete, any other
      positive progress is running in the file's direction (anything but
      "upload" counts as a download), the rest is waiting. */
  function Classify(progress: real, kind: string): (s: Status)
    ensures s == Completed <==> progress == 100.0
    ensures s == Queued <==> progress != 100.0 && progress <= 0.0
    ensures s == Uploading <==> progress != 100.0 && progress > 0.0 && kind == "upload"
  {
    if progress == 100.0 then Completed
    else if progress > 0.0 then (if kind == "upload" then Uploading else Downloading)
    else Queued
  }

  /** The word of the status label. */
  function StatusWord(s: Status): string {
    match s
    case Completed => "已完成"
    case Uploading => "上传中..."
    case Downloading => "下载中..."
    case Queued => "等待中"
  }

  /** The style class of the status label. */
  function StatusClass(s: Status): string {
    match s
    case Completed => "completed"
    case Uploading => "uploading"
    case Downloading => "downloading"
    case Queued => "queued"
  }

  /** The status filter's categories, as stored on the item. */
  const CoarseCompleted: string := "completed"
  const CoarseInProgress: string := "in-progress"
  const CoarseQueued: string := "queued"

  /** The item's `data-status`, computed on its own from the progress. */
  function CoarseStatus(progress: real): string {
    if progress == 100.0 then CoarseCompleted
    else if progress > 0.0 then CoarseInProgress
    else CoarseQueued
  }

  /** The filter category a status label word belongs to ("" for a text
      that is no status word). */
  function CoarseOfWord(word: string): string {
    if word == "已完成" then CoarseCompleted
    else if word == "上传中..." || word == "下载中..." then CoarseInProgress
    else if word == "等待中" then CoarseQueued
    else ""
  }

  /** The class of the status label a status label word goes with. */
  function ClassOfWord(word: string): string {
    if word == "已完成" then "completed"
    else if word == "上传中..." then "uploading"
    else if word == "下载中..." then "downloading"
    else if word == "等待中" then "queued"
    else ""
  }

  /** The stored category and the label agree for every progress and
      direction: the two independent classifications never disagree. */
  lemma CoarseAgreesWithLabel(progress: real, kind: string)
    ensures CoarseStatus(progress) == CoarseOfWord(StatusWord(Classify(progress, kind)))
    ensures StatusClass(Classify(progress, kind)) == ClassOfWord(StatusWord(Classify(progress, kind)))
  {
  }

  /** The label word determines the status. */
  lemma StatusWordInjective(a: Status, b: Status)
    ensures StatusWord(a) == StatusWord(b) <==> a == b
  {
    if a != b {
      assert StatusWord(a)[0] != StatusWord(b)[0];
    }
  }

  // ---------------------------------------------------------------------
  // File items

  /** What the page reads back from a file item: its name label, its
      `data-type` (`kind`) and `data-status` (`coarse`) attributes, the
      width of its progress bar, the word, class and percentage of its
      status label and the text of its size label. `templated` is true
      while the labels still hold the text of the creation template, which
      is padded with white space and so never equals a freshly computed
      text. The `data-name` and `data-filetype` attributes and the icon are
      set once from the name and never change; see `LowerName`,
      `Category` and `Icon`. */
  datatype ItemView = ItemView(
    name: string,
    kind: string,
    coarse: string,
    bar: real,
    statusWord: string,
    statusClass: string,
    statusPercent: real,
    sizeText: string,
    templated: bool)

  function ItemName(it: ItemView): string { it.name }

  /** The item's `data-name`: its name, lower-cased. */
  function LowerName(it: ItemView): string { Lower(it.name) }

  /** The item's `data-filetype`: the category of its extension. */
  function Category(it: ItemView): string { FileTypeCategory(FileExt(it.name)) }

  /** The icon shown before the name. */
  function Icon(it: ItemView): string { FileIcon(FileExt(it.name)) }

  /** The size label: current size over total size, where a zero total
      falls back to the current size. */
  function SizeText(f: SnapFile, formatNonZero: real -> string): (r: string)
    ensures f.totalSize == 0.0 ==>
      r == FormatFileSize(f.currentSize, formatNonZero) + " / " + FormatFileSize(f.currentSize, formatNonZero)
  {
    var total := if f.totalSize == 0.0 then f.currentSize else f.totalSize;
    FormatFileSize(f.currentSize, formatNonZero) + " / " + FormatFileSize(total, formatNonZero)
  }

  /** The item's stored category and label class agree with its label
      word, so that filtering by status shows what the label says. */
  predicate Coherent(it: ItemView) {
    it.coarse == CoarseOfWord(it.statusWord) && it.statusClass == ClassOfWord(it.statusWord)
  }

  /** `createFileItem`: a new item for a file of the snapshot. */
  function CreateItem(f: SnapFile, formatNonZero: real -> string): (r: ItemView)
    ensures r.name == FileName(f.path) && r.kind == f.kind
    ensures r.bar == f.progress && r.statusPercent == f.progress
    ensures r.statusWord == StatusWord(Classify(f.progress, f.kind))
    ensures r.sizeText == SizeText(f, formatNonZero) && r.templated
    ensures Coherent(r)
  {
    var st := Classify(f.progress, f.kind);
    CoarseAgreesWithLabel(f.progress, f.kind);
    ItemView(FileName(f.path), f.kind, CoarseStatus(f.progress), f.progress, StatusWord(st), StatusClass(st),
      f.progress, SizeText(f, formatNonZero), true)
  }

  function Abs(x: real): real {
    if x < 0.0 then -x else x
  }

  /** The labels are rewritten when the label text, the bar (by more than
      one point) or the size text would change. */
  predicate Rewrites(it: ItemView, f: SnapFile, formatNonZero: real -> string) {
    || it.templated
    || it.statusWord != StatusWord(Classify(f.progress, f.kind))
    || Abs(it.bar - f.progress) > 1.0
    || it.sizeText != SizeText(f, formatNonZero)
  }

  /** `updateFileItem` as written: the bar always follows the file; the
      labels are rewritten only when `Rewrites`; the data attributes are
      left as they were at creation. */
  function UpdateItemAsWritten(it: ItemView, f: SnapFile, formatNonZero: real -> string): (r: ItemView)
    ensures r.name == it.name && r.kind == it.kind && r.coarse == it.coarse
    ensures r.bar == f.progress
    ensures r.statusWord == StatusWord(Classify(f.progress, f.kind)) && r.sizeText == SizeText(f, formatNonZero)
    ensures r.statusPercent == if Rewrites(it, f, formatNonZero) then f.progress else it.statusPercent
    ensures !r.templated
  {
    var st := Classify(f.progress, f.kind);
    if Rewrites(it, f, formatNonZero) then
      it.(bar := f.progress, statusWord := StatusWord(st), statusClass := StatusClass(st),
          statusPercent := f.progress, sizeText := SizeText(f, formatNonZero), templated := false)
    else it.(bar := f.progress)
  }

  /** An item created while a file was running and updated when it
      completed shows "completed" on its label but is still filed as
      "in-progress" for the status filter. */
  lemma UpdateAsWrittenLosesStatus(formatNonZero: real -> string)
    ensures var f1 := SnapFile("/sdcard/a.zip", 50.0, 1.0, 2.0, "upload");
            var f2 := SnapFile("/sdcard/a.zip", 100.0, 2.0, 2.0, "upload");
            var it := UpdateItemAsWritten(CreateItem(f1, formatNonZero), f2, formatNonZero);
            && it.statusWord == "已完成"
            && it.coarse == CoarseInProgress
            && !Coherent(it)
  {
  }

  /** `updateFileItem` with the stored status category refreshed together
      with the labels, so the status filter sees the current status. */
  function UpdateItem(it: ItemView, f: SnapFile, formatNonZero: real -> string): (r: ItemView)
    ensures r.name == it.name && r.kind == it.kind
    ensures r.bar == f.progress && r.coarse == CoarseStatus(f.progress)
    ensures r.statusWord == StatusWord(Classify(f.progress, f.kind)) && r.sizeText == SizeText(f, formatNonZero)
    ensures r.statusPercent == if Rewrites(it, f, formatNonZero) then f.progress else it.statusPercent
    ensures !r.templated
    ensures Coherent(it) ==> Coherent(r)
  {
    CoarseAgreesWithLabel(f.progress, f.kind);
    UpdateItemAsWritten(it, f, formatNonZero).(coarse := CoarseStatus(f.progress))
  }

  /** The update the pane applies to an item it already shows:
      `updateFileItem` as written, or, with `refresh`, `UpdateItem`. The
      two differ only in the stored status category. */
  function UpdateWith(it: ItemView, f: SnapFile, formatNonZero: real -> string, refresh: bool): (r: ItemView)
    ensures r.name == it.name && r.kind == it.kind
    ensures r.coarse == if refresh then CoarseStatus(f.progress) else it.coarse
    ensures r.(coarse := it.coarse) == UpdateItemAsWritten(it, f, formatNonZero)
  {
    if refresh then UpdateItem(it, f, formatNonZero) else UpdateItemAsWritten(it, f, formatNonZero)
  }

  /** Updating twice with the same file is updating once, in either mode. */
  lemma UpdateWithIdempotent(it: ItemView, f: SnapFile, formatNonZero: real -> string, refresh: bool)
    ensures UpdateWith(UpdateWith(it, f, formatNonZero, refresh), f, formatNonZero, refresh) == UpdateWith(it, f, formatNonZero, refresh)
  {
  }

  /** Updating a fresh item with the file it was made from only settles its
      label texts: everything shown stays the same, in either mode. */
  lemma UpdateWithCreated(f: SnapFile, formatNonZero: real -> string, refresh: bool)
    ensures UpdateWith(CreateItem(f, formatNonZero), f, formatNonZero, refresh) == CreateItem(f, formatNonZero).(templated := false)
  {
  }

  /** The label percentage may fall behind the bar by more than a point:
      the bar is compared with its own previous width, so steps of less
      than a point with an unchanged size label never rewrite the label. */
  lemma PercentCanLag(formatNonZero: real -> string)
    ensures var f := SnapFile("/d/a", 10.0, 5.0, 50.0, "download");
            var it0 := UpdateItem(CreateItem(f, formatNonZero), f, formatNonZero);
            var it1 := UpdateItem(it0, f.(progress := 10.8), formatNonZero);
            var it2 := UpdateItem(it1, f.(progress := 11.6), formatNonZero);
            it2.bar == 11.6 && it2.statusPercent == 10.0
  {
  }

  /** Settled items: the same on screen, whether or not the label texts
      still carry the template's padding. */
  function Shown(it: ItemView): ItemView {
    it.(templated := false)
  }

  // ---------------------------------------------------------------------
  // Incremental update of one folder's items

  function NameOf(f: SnapFile): string { FileName(f.path) }

  /** The index of the last element whose key is `name`. */
  function LastWith<T>(s: seq<T>, key: T -> string, name: string): (r: Option<nat>)
    ensures r.Some? ==> r.value < |s| && key(s[r.value]) == name
    ensures r.Some? ==> forall i | r.value < i < |s| :: key(s[i]) != name
    ensures r.None? ==> forall i | 0 <= i < |s| :: key(s[i]) != name
  {
    if s == [] then None
    else if key(s[|s| - 1]) == name then Some(|s| - 1)
    else LastWith(s[..|s| - 1], key, name)
  }

  /** With unique keys, the last element keyed `key(s[k])` is `s[k]`. */
  lemma LastWithUnique<T>(s: seq<T>, key: T -> string, k: nat)
    requires UniqueBy(s, key) && k < |s|
    ensures LastWith(s, key, key(s[k])) == Some(k)
  {
  }

  /** One file of an incremental update. The lookup table is built from
      the items present before the update (`orig`), a later item with the
      same name overriding an earlier one; a file whose name is in the
      table updates that item, any other file gets a new item at the end. */
  function MergeStep(orig: seq<ItemView>, cur: seq<ItemView>, f: SnapFile, formatNonZero: real -> string, refresh: bool): (r: seq<ItemView>)
    requires |orig| <= |cur|
    ensures |cur| <= |r| <= |cur| + 1
  {
    match LastWith(orig, ItemName, NameOf(f))
    case Some(k) => cur[k := UpdateWith(cur[k], f, formatNonZero, refresh)]
    case None => cur + [CreateItem(f, formatNonZero)]
  }

  /** `updateFolderContent` in incremental mode: every file in turn. */
  function MergeItems(orig: seq<ItemView>, files: seq<SnapFile>, formatNonZero: real -> string, refresh: bool): (r: seq<ItemView>)
    ensures |orig| <= |r| <= |orig| + |files|
    ensures forall i | 0 <= i < |orig| :: r[i].name == orig[i].name
  {
    if files == [] then orig
    else MergeStep(orig, MergeItems(orig, files[..|files| - 1], formatNonZero, refresh), files[|files| - 1], formatNonZero, refresh)
  }

  /** The files no existing item answers to, in order: those that get new
      items. */
  function Fresh(orig: seq<ItemView>, files: seq<SnapFile>): (r: seq<SnapFile>)
    ensures |r| <= |files|
  {
    if files == [] then []
    else
      var f := files[|files| - 1];
      Fresh(orig, files[..|files| - 1]) + if LastWith(orig, ItemName, NameOf(f)).None? then [f] else []
  }

  /** Every new item is for one of the files, whose name no existing item
      carries. */
  lemma {:induction false} FreshFromFiles(orig: seq<ItemView>, files: seq<SnapFile>)
    ensures forall i | 0 <= i < |Fresh(orig, files)| ::
      Fresh(orig, files)[i] in files && LastWith(orig, ItemName, NameOf(Fresh(orig, files)[i])).None?
  {
    if files != [] {
      var init, f := files[..|files| - 1], files[|files| - 1];
      FreshFromFiles(orig, init);
      var r0, r := Fresh(orig, init), Fresh(orig, files);
      assert r == r0 + if LastWith(orig, ItemName, NameOf(f)).None? then [f] else [];
      forall i | 0 <= i < |r| ensures r[i] in files && LastWith(orig, ItemName, NameOf(r[i])).None? {
        if i < |r0| {
          assert r[i] == r0[i];
          var m :| 0 <= m < |init| && init[m] == r0[i];
          assert files[m] == init[m];
        }
      }
    }
  }

  /** Every file whose name no existing item carries gets a new item. */
  lemma {:induction false} FreshCoversFiles(orig: seq<ItemView>, files: seq<SnapFile>)
    ensures forall m | 0 <= m < |files| && LastWith(orig, ItemName, NameOf(files[m])).None? ::
      files[m] in Fresh(orig, files)
  {
    if files != [] {
      var init, f := files[..|files| - 1], files[|files| - 1];
      FreshCoversFiles(orig, init);
      var r0, r := Fresh(orig, init), Fresh(orig, files);
      assert r == r0 + if LastWith(orig, ItemName, NameOf(f)).None? then [f] else [];
      forall m | 0 <= m < |files| && LastWith(orig, ItemName, NameOf(files[m])).None? ensures files[m] in r {
        if m < |init| {
          assert init[m] == files[m];
          var i :| 0 <= i < |r0| && r0[i] == init[m];
          assert r[i] == r0[i];
        } else {
          assert r[|r| - 1] == f;
        }
      }
    }
  }

  /** The file that updates the existing item `k`: one named like it,
      provided `k` is the item the lookup table maps that name to. */
  function FileFor(orig: seq<ItemView>, files: seq<SnapFile>, k: nat): Option<nat>
    requires k < |orig|
  {
    if LastWith(orig, ItemName, orig[k].name) == Some(k) then LastWith(files, NameOf, orig[k].name) else None
  }

  /** What becomes of the existing item `k`. */
  function Touched(orig: seq<ItemView>, files: seq<SnapFile>, k: nat, formatNonZero: real -> string, refresh: bool): ItemView
    requires k < |orig|
  {
    match FileFor(orig, files, k)
    case Some(m) => UpdateWith(orig[k], files[m], formatNonZero, refresh)
    case None => orig[k]
  }

  lemma UniqueInit<T, K>(s: seq<T>, key: T -> K)
    requires s != [] && UniqueBy(s, key)
    ensures UniqueBy(s[..|s| - 1], key)
    ensures forall m | 0 <= m < |s| - 1 :: key(s[m]) != key(s[|s| - 1])
  {
    var init := s[..|s| - 1];
    forall i, j | 0 <= i < j < |init| ensures key(init[i]) != key(init[j]) {
      assert init[i] == s[i] && init[j] == s[j];
    }
  }

  /** Adding one more file changes what becomes of item `k` only when the
      lookup maps that file's name to `k`. */
  lemma TouchedSnoc(orig: seq<ItemView>, files: seq<SnapFile>, k: nat, formatNonZero: real -> string, refresh: bool)
    requires files != [] && UniqueBy(files, NameOf) && k < |orig|
    ensures var f := files[|files| - 1];
      Touched(orig, files, k, formatNonZero, refresh) ==
        if LastWith(orig, ItemName, NameOf(f)) == Some(k) then UpdateWith(orig[k], f, formatNonZero, refresh)
        else Touched(orig, files[..|files| - 1], k, formatNonZero, refresh)
    ensures LastWith(orig, ItemName, NameOf(files[|files| - 1])) == Some(k) ==>
      Touched(orig, files[..|files| - 1], k, formatNonZero, refresh) == orig[k]
  {
    FileForSnoc(orig, files, k);
  }

  /** The file for item `k` after one more file: the new one when the
      lookup maps its name to `k`, else the one before. */
  lemma FileForSnoc(orig: seq<ItemView>, files: seq<SnapFile>, k: nat)
    requires files != [] && UniqueBy(files, NameOf) && k < |orig|
    ensures FileFor(orig, files, k) ==
      if LastWith(orig, ItemName, NameOf(files[|files| - 1])) == Some(k) then Some(|files| - 1)
      else FileFor(orig, files[..|files| - 1], k)
    ensures LastWith(orig, ItemName, NameOf(files[|files| - 1])) == Some(k) ==>
      FileFor(orig, files[..|files| - 1], k).None?
  {
    UniqueInit(files, NameOf);
    if orig[k].name == NameOf(files[|files| - 1]) {
      FileForLast(files, orig[k].name);
    } else {
      FileForEarlier(files, orig[k].name);
    }
  }

  /** With distinct names, the last file is the only one with its name. */
  lemma FileForLast(files: seq<SnapFile>, name: string)
    requires files != [] && name == NameOf(files[|files| - 1])
    requires forall m | 0 <= m < |files| - 1 :: NameOf(files[m]) != NameOf(files[|files| - 1])
    ensures LastWith(files, NameOf, name) == Some(|files| - 1)
    ensures LastWith(files[..|files| - 1], NameOf, name).None?
  {
  }

  /** A name other than the last file's is looked up among the others. */
  lemma FileForEarlier(files: seq<SnapFile>, name: string)
    requires files != [] && name != NameOf(files[|files| - 1])
    ensures LastWith(files, NameOf, name) == LastWith(files[..|files| - 1], NameOf, name)
  {
  }

  /** The incremental update in closed form: an existing item is updated
      by the one file named like it, if the lookup maps that name to it,
      and left alone otherwise; the files no item answers to are appended as
      new items, in order. */
  predicate ClosedForm(orig: seq<ItemView>, files: seq<SnapFile>, formatNonZero: real -> string, refresh: bool) {
    ClosedFormOf(orig, files, MergeItems(orig, files, formatNonZero, refresh), Fresh(orig, files), formatNonZero, refresh)
  }

  /** `r` is what the closed form gives for `files`, `added` being the
      files that get new items. */
  predicate ClosedFormOf(orig: seq<ItemView>, files: seq<SnapFile>, r: seq<ItemView>, added: seq<SnapFile>, formatNonZero: real -> string, refresh: bool) {
    && |r| == |orig| + |added|
    && (forall k | 0 <= k < |orig| :: r[k] == Touched(orig, files, k, formatNonZero, refresh))
    && (forall m | 0 <= m < |added| :: r[|orig| + m] == CreateItem(added[m], formatNonZero))
  }

  /** The incremental update has the closed form for files with distinct
      names (the status server never lists one path twice). */
  lemma {:induction false} MergeClosedForm(orig: seq<ItemView>, files: seq<SnapFile>, formatNonZero: real -> string, refresh: bool)
    requires UniqueBy(files, NameOf)
    ensures ClosedForm(orig, files, formatNonZero, refresh)
  {
    if files != [] {
      var init, f := files[..|files| - 1], files[|files| - 1];
      UniqueInit(files, NameOf);
      MergeClosedForm(orig, init, formatNonZero, refresh);
      match LastWith(orig, ItemName, NameOf(f))
      case Some(k0) => ClosedFormSnocOld(orig, files, k0, formatNonZero, refresh);
      case None => ClosedFormSnocNew(orig, files, formatNonZero, refresh);
    }
  }

  lemma ClosedFormSnocOld(orig: seq<ItemView>, files: seq<SnapFile>, k0: nat, formatNonZero: real -> string, refresh: bool)
    requires files != [] && UniqueBy(files, NameOf)
    requires LastWith(orig, ItemName, NameOf(files[|files| - 1])) == Some(k0)
    requires ClosedForm(orig, files[..|files| - 1], formatNonZero, refresh)
    ensures ClosedForm(orig, files, formatNonZero, refresh)
  {
    var init, f := files[..|files| - 1], files[|files| - 1];
    var r0 := MergeItems(orig, init, formatNonZero, refresh);
    assert MergeItems(orig, files, formatNonZero, refresh) == r0[k0 := UpdateWith(r0[k0], f, formatNonZero, refresh)];
    assert Fresh(orig, files) == Fresh(orig, init);
    UpdatedInPlace(orig, files, k0, r0, Fresh(orig, init), formatNonZero, refresh);
  }

  /** A file the lookup maps to item `k0` updates that item in place. */
  lemma UpdatedInPlace(orig: seq<ItemView>, files: seq<SnapFile>, k0: nat, r0: seq<ItemView>, added: seq<SnapFile>, formatNonZero: real -> string, refresh: bool)
    requires files != [] && UniqueBy(files, NameOf)
    requires LastWith(orig, ItemName, NameOf(files[|files| - 1])) == Some(k0)
    requires ClosedFormOf(orig, files[..|files| - 1], r0, added, formatNonZero, refresh)
    ensures ClosedFormOf(orig, files, r0[k0 := UpdateWith(r0[k0], files[|files| - 1], formatNonZero, refresh)], added, formatNonZero, refresh)
  {
    var r := r0[k0 := UpdateWith(r0[k0], files[|files| - 1], formatNonZero, refresh)];
    forall k | 0 <= k < |orig| ensures r[k] == Touched(orig, files, k, formatNonZero, refresh) {
      TouchedSnoc(orig, files, k, formatNonZero, refresh);
    }
  }

  lemma ClosedFormSnocNew(orig: seq<ItemView>, files: seq<SnapFile>, formatNonZero: real -> string, refresh: bool)
    requires files != [] && UniqueBy(files, NameOf)
    requires LastWith(orig, ItemName, NameOf(files[|files| - 1])).None?
    requires ClosedForm(orig, files[..|files| - 1], formatNonZero, refresh)
    ensures ClosedForm(orig, files, formatNonZero, refresh)
  {
    var init, f := files[..|files| - 1], files[|files| - 1];
    var r0, added0 := MergeItems(orig, init, formatNonZero, refresh), Fresh(orig, init);
    assert MergeItems(orig, files, formatNonZero, refresh) == r0 + [CreateItem(f, formatNonZero)];
    assert Fresh(orig, files) == added0 + [f];
    AppendedAtEnd(orig, files, r0, added0, formatNonZero, refresh);
  }

  /** A file no item answers to gets a new item at the end. */
  lemma AppendedAtEnd(orig: seq<ItemView>, files: seq<SnapFile>, r0: seq<ItemView>, added: seq<SnapFile>, formatNonZero: real -> string, refresh: bool)
    requires files != [] && UniqueBy(files, NameOf)
    requires LastWith(orig, ItemName, NameOf(files[|files| - 1])).None?
    requires ClosedFormOf(orig, files[..|files| - 1], r0, added, formatNonZero, refresh)
    ensures var f := files[|files| - 1];
      ClosedFormOf(orig, files, r0 + [CreateItem(f, formatNonZero)], added + [f], formatNonZero, refresh)
  {
    var f := files[|files| - 1];
    var r, a := r0 + [CreateItem(f, formatNonZero)], added + [f];
    forall k | 0 <= k < |orig| ensures r[k] == Touched(orig, files, k, formatNonZero, refresh) {
      TouchedSnoc(orig, files, k, formatNonZero, refresh);
      assert r[k] == r0[k];
    }
    forall m | 0 <= m < |a| ensures r[|orig| + m] == CreateItem(a[m], formatNonZero) {
      if m < |added| {
        assert r[|orig| + m] == r0[|orig| + m] && a[m] == added[m];
      }
    }
  }

  /** The new items' files keep the files' distinct names. */
  lemma {:induction false} FreshUnique(orig: seq<ItemView>, files: seq<SnapFile>)
    requires UniqueBy(files, NameOf)
    ensures UniqueBy(Fresh(orig, files), NameOf)
  {
    if files != [] {
      var init, f := files[..|files| - 1], files[|files| - 1];
      UniqueInit(files, NameOf);
      FreshUnique(orig, init);
      FreshFromFiles(orig, init);
      var r0 := Fresh(orig, init);
      if LastWith(orig, ItemName, NameOf(f)).None? {
        var r := r0 + [f];
        assert Fresh(orig, files) == r;
        forall i, j | 0 <= i < j < |r| ensures NameOf(r[i]) != NameOf(r[j]) {
          if j == |r| - 1 {
            var m :| 0 <= m < |init| && init[m] == r0[i];
            assert files[m] == init[m];
          } else {
            assert r[i] == r0[i] && r[j] == r0[j];
          }
        }
      } else {
        assert Fresh(orig, files) == r0;
      }
    }
  }

  /** With distinct names among the items and among the files, the items
      still have distinct names after the update. */
  lemma MergeKeepsNamesUnique(orig: seq<ItemView>, files: seq<SnapFile>, formatNonZero: real -> string, refresh: bool)
    requires UniqueBy(orig, ItemName) && UniqueBy(files, NameOf)
    ensures UniqueBy(MergeItems(orig, files, formatNonZero, refresh), ItemName)
  {
    var r, added := MergeItems(orig, files, formatNonZero, refresh), Fresh(orig, files);
    MergeClosedForm(orig, files, formatNonZero, refresh);
    FreshUnique(orig, files);
    FreshFromFiles(orig, files);
    forall i, j | 0 <= i < j < |r| ensures r[i].name != r[j].name {
      if j < |orig| {
        assert r[i].name == ItemName(orig[i]) && r[j].name == ItemName(orig[j]);
      } else if i < |orig| {
        assert r[j].name == NameOf(added[j - |orig|]);
        assert LastWith(orig, ItemName, NameOf(added[j - |orig|])).None?;
        assert r[i].name == ItemName(orig[i]);
      } else {
        assert r[i].name == NameOf(added[i - |orig|]) && r[j].name == NameOf(added[j - |orig|]);
      }
    }
  }

  /** After the update every file has an item with its name. */
  lemma MergeCoversFiles(orig: seq<ItemView>, files: seq<SnapFile>, formatNonZero: real -> string, refresh: bool)
    requires UniqueBy(files, NameOf)
    ensures forall m | 0 <= m < |files| :: LastWith(MergeItems(orig, files, formatNonZero, refresh), ItemName, NameOf(files[m])).Some?
  {
    var r, added := MergeItems(orig, files, formatNonZero, refresh), Fresh(orig, files);
    MergeClosedForm(orig, files, formatNonZero, refresh);
    FreshCoversFiles(orig, files);
    forall m | 0 <= m < |files| ensures LastWith(r, ItemName, NameOf(files[m])).Some? {
      match LastWith(orig, ItemName, NameOf(files[m]))
      case Some(k) =>
        assert ItemName(r[k]) == NameOf(files[m]);
      case None =>
        var i :| 0 <= i < |added| && added[i] == files[m];
        assert ItemName(r[|orig| + i]) == NameOf(files[m]);
    }
  }

  /** Reconciling the same files a second time changes nothing on screen:
      every item already shows what the files say. */
  lemma MergeSettles(orig: seq<ItemView>, files: seq<SnapFile>, formatNonZero: real -> string, refresh: bool)
    requires UniqueBy(orig, ItemName) && UniqueBy(files, NameOf)
    ensures var r := MergeItems(orig, files, formatNonZero, refresh);
      var r2 := MergeItems(r, files, formatNonZero, refresh);
      |r2| == |r| && forall k | 0 <= k < |r| :: Shown(r2[k]) == Shown(r[k])
  {
    var r := MergeItems(orig, files, formatNonZero, refresh);
    var r2 := MergeItems(r, files, formatNonZero, refresh);
    var added := Fresh(orig, files);
    MergeClosedForm(orig, files, formatNonZero, refresh);
    MergeKeepsNamesUnique(orig, files, formatNonZero, refresh);
    MergeCoversFiles(orig, files, formatNonZero, refresh);
    MergeClosedForm(r, files, formatNonZero, refresh);
    NoFresh(r, files);
    forall k | 0 <= k < |r| ensures Shown(r2[k]) == Shown(r[k]) {
      SettledItem(orig, files, k, formatNonZero, refresh);
    }
  }

  /** No item is new when every file already has one. */
  lemma {:induction false} NoFresh(orig: seq<ItemView>, files: seq<SnapFile>)
    requires forall m | 0 <= m < |files| :: LastWith(orig, ItemName, NameOf(files[m])).Some?
    ensures Fresh(orig, files) == []
  {
    if files != [] {
      var init := files[..|files| - 1];
      assert forall m | 0 <= m < |init| :: init[m] == files[m];
      NoFresh(orig, init);
      assert LastWith(orig, ItemName, NameOf(files[|files| - 1])).Some?;
    }
  }

  /** One item of `MergeSettles`. */
  lemma SettledItem(orig: seq<ItemView>, files: seq<SnapFile>, k: nat, formatNonZero: real -> string, refresh: bool)
    requires UniqueBy(orig, ItemName) && UniqueBy(files, NameOf)
    requires UniqueBy(MergeItems(orig, files, formatNonZero, refresh), ItemName)
    requires k < |MergeItems(orig, files, formatNonZero, refresh)|
    ensures Shown(Touched(MergeItems(orig, files, formatNonZero, refresh), files, k, formatNonZero, refresh)) ==
            Shown(MergeItems(orig, files, formatNonZero, refresh)[k])
  {
    var r := MergeItems(orig, files, formatNonZero, refresh);
    var added := Fresh(orig, files);
    MergeClosedForm(orig, files, formatNonZero, refresh);
    LastWithUnique(r, ItemName, k);
    match LastWith(files, NameOf, r[k].name)
    case None =>
    case Some(m) =>
      var f := files[m];
      if k < |orig| {
        LastWithUnique(orig, ItemName, k);
        assert FileFor(orig, files, k) == Some(m);
        UpdateWithIdempotent(orig[k], f, formatNonZero, refresh);
      } else {
        FreshFromFiles(orig, files);
        var g := added[k - |orig|];
        var m' :| 0 <= m' < |files| && files[m'] == g;
        assert NameOf(files[m']) == NameOf(f);
        assert m' == m;
        UpdateWithCreated(f, formatNonZero, refresh);
      }
  }

  // ---------------------------------------------------------------------
  // The pane

  /** A folder of the pane: its path, its element id (the encoded path),
      whether it is expanded, and its items in display order. */
  datatype ViewFolder = ViewFolder(path: string, id: string, expanded: bool, items: seq<ItemView>)

  /** A child of the pane: a notice text or a folder. */
  datatype Child = Notice(text: string) | FolderChild(folder: ViewFolder)

  type Pane = seq<Child>

  const NotConnected: string := "服务未连接，正在尝试连接...如长时间未连接,请检查APP"
  const Connected: string := "传输状态监控服务已连接"

  /** The pane when the page has loaded. */
  const InitialPane: Pane := [Notice(NotConnected)]

  predicate IsFolder(c: Child, id: string) {
    c.FolderChild? && c.folder.id == id
  }

  predicate IsFolderChild(c: Child) { c.FolderChild? }

  /** `document.getElementById`: the first folder with that id. */
  function FindFolder(c: Pane, id: string): (r: Option<nat>)
    ensures r.Some? ==> r.value < |c| && IsFolder(c[r.value], id)
    ensures r.Some? ==> forall j | 0 <= j < r.value :: !IsFolder(c[j], id)
    ensures r.None? ==> forall j | 0 <= j < |c| :: !IsFolder(c[j], id)
  {
    if c == [] then None
    else if IsFolder(c[0], id) then Some(0)
    else match FindFolder(c[1..], id)
      case Some(j) => Some(j + 1)
      case None => None
  }

  /** The ids of the expanded folders. */
  function ExpandedIds(c: Pane): set<string> {
    set j | 0 <= j < |c| && c[j].FolderChild? && c[j].folder.expanded :: c[j].folder.id
  }

  /** No two folders share an id. */
  predicate UniqueIds(c: Pane) {
    forall i, j | 0 <= i < j < |c| && c[i].FolderChild? && c[j].FolderChild? :: c[i].folder.id != c[j].folder.id
  }

  /** `b` is `a` after an update: same path and id, still expanded if it
      was, and its items extended, none removed or renamed. */
  predicate FolderGrows(a: ViewFolder, b: ViewFolder) {
    && b.path == a.path && b.id == a.id
    && (a.expanded ==> b.expanded)
    && |a.items| <= |b.items|
    && forall i | 0 <= i < |a.items| :: b.items[i].name == a.items[i].name
  }

  predicate ChildGrows(a: Child, b: Child) {
    match a
    case Notice(_) => b == a
    case FolderChild(fa) => b.FolderChild? && FolderGrows(fa, b.folder)
  }

  /** `r` is the pane `c` after reconciling: every child kept in place (a
      folder possibly grown), new children only folders, at the end. */
  predicate Extends(c: Pane, r: Pane) {
    && |c| <= |r|
    && (forall j | 0 <= j < |c| :: ChildGrows(c[j], r[j]))
    && (forall j | |c| <= j < |r| :: r[j].FolderChild?)
  }

  lemma ExtendsTransitive(a: Pane, b: Pane, c: Pane)
    requires Extends(a, b) && Extends(b, c)
    ensures Extends(a, c)
  {
    forall j | 0 <= j < |a| ensures ChildGrows(a[j], c[j]) {
      assert ChildGrows(a[j], b[j]) && ChildGrows(b[j], c[j]);
    }
    forall j | |a| <= j < |c| ensures c[j].FolderChild? {
      if j < |b| {
        assert ChildGrows(b[j], c[j]);
      }
    }
  }

  /** The incremental update of one folder, then restoring its expanded
      state if it was expanded before this snapshot was processed. */
  function Touch(vf: ViewFolder, files: seq<SnapFile>, before: set<string>, formatNonZero: real -> string, refresh: bool): (r: ViewFolder)
    ensures FolderGrows(vf, r)
  {
    vf.(items := MergeItems(vf.items, files, formatNonZero, refresh), expanded := vf.expanded || vf.id in before)
  }

  /** One transfer of `processData`: find the folder by id, or create it at
      the end, expanded when it is the pane's only child; then update its
      items. */
  function Reconcile(c: Pane, t: SnapFolder, before: set<string>, formatNonZero: real -> string, refresh: bool): (r: Pane)
    ensures Extends(c, r)
    ensures FindFolder(r, EncodeFolderId(t.folder)).Some?
  {
    var id := EncodeFolderId(t.folder);
    match FindFolder(c, id)
    case Some(j) =>
      var r := c[j := FolderChild(Touch(c[j].folder, t.files, before, formatNonZero, refresh))];
      assert IsFolder(r[j], id);
      r
    case None =>
      var r := c + [FolderChild(Touch(ViewFolder(t.folder, id, |c| == 0, []), t.files, before, formatNonZero, refresh))];
      assert IsFolder(r[|c|], id);
      r
  }

  /** Every transfer in turn. */
  function ReconcileAll(c: Pane, ts: seq<SnapFolder>, before: set<string>, formatNonZero: real -> string, refresh: bool): (r: Pane)
    ensures Extends(c, r)
    ensures forall i | 0 <= i < |ts| :: FindFolder(r, EncodeFolderId(ts[i].folder)).Some?
  {
    if ts == [] then c
    else
      var c0 := ReconcileAll(c, ts[..|ts| - 1], before, formatNonZero, refresh);
      var r := Reconcile(c0, ts[|ts| - 1], before, formatNonZero, refresh);
      ReconcileAllStep(c, c0, r, ts[..|ts| - 1], ts);
      r
  }

  /** One more transfer keeps the folders of the earlier ones. */
  lemma ReconcileAllStep(c: Pane, c0: Pane, r: Pane, init: seq<SnapFolder>, ts: seq<SnapFolder>)
    requires ts != [] && init == ts[..|ts| - 1] && Extends(c, c0) && Extends(c0, r)
    requires forall i | 0 <= i < |init| :: FindFolder(c0, EncodeFolderId(init[i].folder)).Some?
    requires FindFolder(r, EncodeFolderId(ts[|ts| - 1].folder)).Some?
    ensures Extends(c, r)
    ensures forall i | 0 <= i < |ts| :: FindFolder(r, EncodeFolderId(ts[i].folder)).Some?
  {
    ExtendsTransitive(c, c0, r);
    assert forall i | 0 <= i < |init| :: init[i] == ts[i];
    KeepsFolders(c0, r);
  }

  /** A folder present before reconciling is still found after it. */
  lemma KeepsFolders(c: Pane, r: Pane)
    requires Extends(c, r)
    ensures forall id | FindFolder(c, id).Some? :: FindFolder(r, id).Some?
  {
    forall id | FindFolder(c, id).Some? ensures FindFolder(r, id).Some? {
      var j := FindFolder(c, id).value;
      assert ChildGrows(c[j], r[j]);
      assert IsFolder(r[j], id);
    }
  }

  /** Folders created while reconciling are at the end, their ids were not
      among the expanded ones, and such a folder is expanded exactly when
      it was created into an empty pane. */
  predicate NewFoldersClosed(c: Pane, r: Pane, before: set<string>) {
    forall j | |c| <= j < |r| :: r[j].FolderChild? && r[j].folder.id !in before && (r[j].folder.expanded <==> j == 0)
  }

  lemma {:induction false} ReconcileAllNewFolders(c: Pane, ts: seq<SnapFolder>, before: set<string>, formatNonZero: real -> string, refresh: bool)
    requires forall id | id in before :: FindFolder(c, id).Some?
    ensures NewFoldersClosed(c, ReconcileAll(c, ts, before, formatNonZero, refresh), before)
  {
    if ts != [] {
      var c0 := ReconcileAll(c, ts[..|ts| - 1], before, formatNonZero, refresh);
      ReconcileAllNewFolders(c, ts[..|ts| - 1], before, formatNonZero, refresh);
      KeepsFolders(c, c0);
      ReconcileNewFolders(c, c0, ts[|ts| - 1], before, formatNonZero, refresh);
    }
  }

  lemma ReconcileNewFolders(c: Pane, c0: Pane, t: SnapFolder, before: set<string>, formatNonZero: real -> string, refresh: bool)
    requires |c| <= |c0| && NewFoldersClosed(c, c0, before)
    requires forall id | id in before :: FindFolder(c0, id).Some?
    ensures NewFoldersClosed(c, Reconcile(c0, t, before, formatNonZero, refresh), before)
  {
    var id := EncodeFolderId(t.folder);
    match FindFolder(c0, id)
    case Some(j) =>
      TouchedFolderStaysClosed(c, c0, j, Touch(c0[j].folder, t.files, before, formatNonZero, refresh), before);
    case None =>
      assert id !in before;
      CreatedFolderStaysClosed(c, c0, Touch(ViewFolder(t.folder, id, |c0| == 0, []), t.files, before, formatNonZero, refresh), before);
  }

  /** Updating a folder in place keeps the created folders as they were. */
  lemma TouchedFolderStaysClosed(c: Pane, c0: Pane, j: nat, f: ViewFolder, before: set<string>)
    requires |c| <= |c0| && NewFoldersClosed(c, c0, before)
    requires j < |c0| && c0[j].FolderChild? && f.id == c0[j].folder.id
    requires f.expanded <==> c0[j].folder.expanded || f.id in before
    ensures NewFoldersClosed(c, c0[j := FolderChild(f)], before)
  {
  }

  /** A folder created at the end, with an id that was not expanded, is
      expanded exactly when the pane was empty. */
  lemma CreatedFolderStaysClosed(c: Pane, c0: Pane, f: ViewFolder, before: set<string>)
    requires |c| <= |c0| && NewFoldersClosed(c, c0, before)
    requires f.id !in before && (f.expanded <==> |c0| == 0)
    ensures NewFoldersClosed(c, c0 + [FolderChild(f)], before)
  {
  }

  /** Reconciling never gives two folders the same id. */
  lemma {:induction false} ReconcileAllKeepsIdsUnique(c: Pane, ts: seq<SnapFolder>, before: set<string>, formatNonZero: real -> string, refresh: bool)
    requires UniqueIds(c)
    ensures UniqueIds(ReconcileAll(c, ts, before, formatNonZero, refresh))
  {
    if ts != [] {
      var c0 := ReconcileAll(c, ts[..|ts| - 1], before, formatNonZero, refresh);
      ReconcileAllKeepsIdsUnique(c, ts[..|ts| - 1], before, formatNonZero, refresh);
      var t := ts[|ts| - 1];
      var id := EncodeFolderId(t.folder);
      var r := Reconcile(c0, t, before, formatNonZero, refresh);
      forall i, j | 0 <= i < j < |r| && r[i].FolderChild? && r[j].FolderChild? ensures r[i].folder.id != r[j].folder.id {
        if j < |c0| {
          assert ChildGrows(c0[i], r[i]) && ChildGrows(c0[j], r[j]);
        } else {
          assert ChildGrows(c0[i], r[i]);
          assert !IsFolder(c0[i], id);
        }
      }
    }
  }

  /** `processData` as written: an empty or missing transfer list replaces
      the pane with the "connected" notice; otherwise every transfer is
      reconciled into the pane as it stands, notices included. */
  function ProcessDataAsWritten(c: Pane, data: Snapshot, formatNonZero: real -> string): (r: Pane)
    ensures (data.None? || data.value == []) ==> r == [Notice(Connected)]
    ensures data.Some? && data.value != [] ==> Extends(c, r)
  {
    match data
    case None => [Notice(Connected)]
    case Some(ts) => if ts == [] then [Notice(Connected)] else ReconcileAll(c, ts, ExpandedIds(c), formatNonZero, false)
  }

  /** The folders of a pane, without its notices. */
  function Folders(c: Pane): (r: Pane)
    ensures forall j | 0 <= j < |r| :: r[j].FolderChild? && r[j] in c
    ensures forall j | 0 <= j < |c| && c[j].FolderChild? :: c[j] in r
  {
    Filter(c, IsFolderChild)
  }

  /** `processData` with the notice cleared before the folders are
      reconciled, so that a notice never stays above live folders and the
      first folder of a pane without folders opens expanded. */
  function ProcessData(c: Pane, data: Snapshot, formatNonZero: real -> string): (r: Pane)
    ensures (data.None? || data.value == []) ==> r == [Notice(Connected)]
    ensures data.Some? && data.value != [] ==> Extends(Folders(c), r) && forall j | 0 <= j < |r| :: r[j].FolderChild?
  {
    match data
    case None => [Notice(Connected)]
    case Some(ts) =>
      if ts == [] then [Notice(Connected)]
      else
        var folders := Folders(c);
        var r := ReconcileAll(folders, ts, ExpandedIds(folders), formatNonZero, true);
        assert forall j | 0 <= j < |r| :: r[j].FolderChild? by {
          forall j | 0 <= j < |r| ensures r[j].FolderChild? {
            if j < |folders| {
              assert ChildGrows(folders[j], r[j]);
            }
          }
        }
        r
  }

  /** With transfers listed: every transfer has its folder; a folder that
      was expanded stays expanded; a folder that is new is expanded exactly
      when the pane had no folder before it; folder ids stay unique. */
  lemma ProcessDataFolders(c: Pane, ts: seq<SnapFolder>, formatNonZero: real -> string)
    requires ts != []
    ensures var folders, r := Folders(c), ProcessData(c, Some(ts), formatNonZero);
      && (forall i | 0 <= i < |ts| :: FindFolder(r, EncodeFolderId(ts[i].folder)).Some?)
      && (forall j | 0 <= j < |folders| :: folders[j].folder.expanded ==> r[j].folder.expanded)
      && (forall j | |folders| <= j < |r| :: r[j].folder.expanded <==> j == 0)
      && (UniqueIds(c) ==> UniqueIds(r))
  {
    var folders := Folders(c);
    var before := ExpandedIds(folders);
    forall id | id in before ensures FindFolder(folders, id).Some? {
      var j :| 0 <= j < |folders| && folders[j].FolderChild? && folders[j].folder.expanded && folders[j].folder.id == id;
      assert IsFolder(folders[j], id);
    }
    ReconcileAllNewFolders(folders, ts, before, formatNonZero, true);
    var r := ReconcileAll(folders, ts, before, formatNonZero, true);
    forall j | 0 <= j < |folders| ensures folders[j].folder.expanded ==> r[j].folder.expanded {
      assert ChildGrows(folders[j], r[j]);
    }
    if UniqueIds(c) {
      FoldersKeepIdsUnique(c);
      ReconcileAllKeepsIdsUnique(folders, ts, before, formatNonZero, true);
    }
  }

  lemma {:induction false} FoldersKeepIdsUnique(c: Pane)
    requires UniqueIds(c)
    ensures UniqueIds(Folders(c))
  {
    if c != [] {
      var t := c[1..];
      TailUniqueIds(c);
      FoldersKeepIdsUnique(t);
      var ft := Folders(t);
      if c[0].FolderChild? {
        assert Folders(c) == [c[0]] + ft;
        forall j | 0 <= j < |ft| ensures ft[j].folder.id != c[0].folder.id {
          var k :| 0 <= k < |t| && t[k] == ft[j];
          assert t[k] == c[k + 1];
        }
        ConsUniqueIds(c[0], ft);
      } else {
        assert Folders(c) == ft;
      }
    }
  }

  lemma TailUniqueIds(c: Pane)
    requires c != [] && UniqueIds(c)
    ensures UniqueIds(c[1..])
  {
    var t := c[1..];
    forall i, j | 0 <= i < j < |t| && t[i].FolderChild? && t[j].FolderChild? ensures t[i].folder.id != t[j].folder.id {
      assert t[i] == c[i + 1] && t[j] == c[j + 1];
    }
  }

  lemma ConsUniqueIds(x: Child, ft: Pane)
    requires x.FolderChild? && UniqueIds(ft)
    requires forall j | 0 <= j < |ft| :: ft[j].FolderChild? && ft[j].folder.id != x.folder.id
    ensures UniqueIds([x] + ft)
  {
    var r := [x] + ft;
    forall i, j | 0 <= i < j < |r| && r[i].FolderChild? && r[j].FolderChild? ensures r[i].folder.id != r[j].folder.id {
      assert r[j] == ft[j - 1];
      if i > 0 {
        assert r[i] == ft[i - 1];
      }
    }
  }

  /** As written, a pane that starts with a notice keeps it above the
      folders, and no new folder is ever expanded by default. */
  lemma ProcessDataAsWrittenKeepsNotice(c: Pane, ts: seq<SnapFolder>, formatNonZero: real -> string)
    requires ts != [] && c != [] && c[0].Notice?
    ensures var r := ProcessDataAsWritten(c, Some(ts), formatNonZero);
      && r[0] == c[0]
      && forall j | |c| <= j < |r| :: !r[j].folder.expanded
  {
    var before := ExpandedIds(c);
    forall id | id in before ensures FindFolder(c, id).Some? {
      var j :| 0 <= j < |c| && c[j].FolderChild? && c[j].folder.expanded && c[j].folder.id == id;
      assert IsFolder(c[j], id);
    }
    ReconcileAllNewFolders(c, ts, before, formatNonZero, false);
    var r := ReconcileAll(c, ts, before, formatNonZero, false);
    assert ChildGrows(c[0], r[0]);
  }

  /** The first snapshot after the page loads, as written: the notice
      stays above the new folder, which opens collapsed. */
  lemma FirstSnapshotAsWritten(formatNonZero: real -> string)
    ensures var asWritten := ProcessDataAsWritten(InitialPane, Some([SnapFolder("/sdcard/", [])]), formatNonZero);
      |asWritten| == 2 && asWritten[0] == Notice(NotConnected) && !asWritten[1].folder.expanded
  {
    var t := SnapFolder("/sdcard/", []);
    var before := ExpandedIds(InitialPane);
    assert [t][..0] == [];
    assert ReconcileAll(InitialPane, [t], before, formatNonZero, false) == Reconcile(InitialPane, t, before, formatNonZero, false);
    assert FindFolder(InitialPane, EncodeFolderId(t.folder)).None?;
    ProcessDataAsWrittenKeepsNotice(InitialPane, [t], formatNonZero);
  }

  /** The first snapshot after the page loads, corrected: the notice is
      gone and the only folder opens expanded. */
  lemma FirstSnapshotCorrected(formatNonZero: real -> string)
    ensures var corrected := ProcessData(InitialPane, Some([SnapFolder("/sdcard/", [])]), formatNonZero);
      |corrected| == 1 && corrected[0].folder.expanded
  {
    var t := SnapFolder("/sdcard/", []);
    var empty: Pane := [];
    assert Folders(InitialPane) == empty;
    ProcessDataOneTransfer(InitialPane, t, formatNonZero);
    ReconcileIntoEmpty(t, formatNonZero, true);
  }

  /** `ProcessData` of a single transfer reconciles it into the folders. */
  lemma ProcessDataOneTransfer(c: Pane, t: SnapFolder, formatNonZero: real -> string)
    ensures ProcessData(c, Some([t]), formatNonZero) == Reconcile(Folders(c), t, ExpandedIds(Folders(c)), formatNonZero, true)
  {
    ReconcileAllOne(Folders(c), t, ExpandedIds(Folders(c)), formatNonZero, true);
  }

  lemma ReconcileAllOne(c: Pane, t: SnapFolder, before: set<string>, formatNonZero: real -> string, refresh: bool)
    ensures ReconcileAll(c, [t], before, formatNonZero, refresh) == Reconcile(c, t, before, formatNonZero, refresh)
  {
    assert [t][..0] == [];
  }

  /** Into a pane with no children, a transfer gets one expanded folder. */
  lemma ReconcileIntoEmpty(t: SnapFolder, formatNonZero: real -> string, refresh: bool)
    ensures var r := Reconcile([], t, {}, formatNonZero, refresh);
      |r| == 1 && r[0].FolderChild? && r[0].folder.expanded
  {
    var empty: Pane := [];
    assert FindFolder(empty, EncodeFolderId(t.folder)).None?;
  }

  // ---------------------------------------------------------------------
  // Coherence of the whole pane

  predicate AllCoherent(items: seq<ItemView>) {
    forall i | 0 <= i < |items| :: Coherent(items[i])
  }

  predicate PaneCoherent(c: Pane) {
    forall j | 0 <= j < |c| && c[j].FolderChild? :: AllCoherent(c[j].folder.items)
  }

  /** Items created or updated by an incremental update are coherent. */
  lemma {:induction false} MergeKeepsCoherent(orig: seq<ItemView>, files: seq<SnapFile>, formatNonZero: real -> string)
    requires AllCoherent(orig)
    ensures AllCoherent(MergeItems(orig, files, formatNonZero, true))
  {
    if files != [] {
      var cur := MergeItems(orig, files[..|files| - 1], formatNonZero, true);
      MergeKeepsCoherent(orig, files[..|files| - 1], formatNonZero);
      var f := files[|files| - 1];
      var r := MergeStep(orig, cur, f, formatNonZero, true);
      match LastWith(orig, ItemName, NameOf(f))
      case Some(k) =>
        assert r == cur[k := UpdateWith(cur[k], f, formatNonZero, true)];
        assert Coherent(UpdateWith(cur[k], f, formatNonZero, true));
      case None =>
        assert r == cur + [CreateItem(f, formatNonZero)];
    }
  }

  lemma {:induction false} ReconcileAllKeepsCoherent(c: Pane, ts: seq<SnapFolder>, before: set<string>, formatNonZero: real -> string)
    requires PaneCoherent(c)
    ensures PaneCoherent(ReconcileAll(c, ts, before, formatNonZero, true))
  {
    if ts != [] {
      var c0 := ReconcileAll(c, ts[..|ts| - 1], before, formatNonZero, true);
      ReconcileAllKeepsCoherent(c, ts[..|ts| - 1], before, formatNonZero);
      var t := ts[|ts| - 1];
      var r := Reconcile(c0, t, before, formatNonZero, true);
      match FindFolder(c0, EncodeFolderId(t.folder))
      case Some(j) =>
        MergeKeepsCoherent(c0[j].folder.items, t.files, formatNonZero);
        forall k | 0 <= k < |r| && r[k].FolderChild? ensures AllCoherent(r[k].folder.items) {
          assert k != j ==> r[k] == c0[k];
        }
      case None =>
        MergeKeepsCoherent([], t.files, formatNonZero);
        forall k | 0 <= k < |r| && r[k].FolderChild? ensures AllCoherent(r[k].folder.items) {
          assert k < |c0| ==> r[k] == c0[k];
        }
    }
  }

  /** Processing a snapshot keeps every item's filter category in step
      with its label. */
  lemma ProcessDataKeepsCoherent(c: Pane, data: Snapshot, formatNonZero: real -> string)
    requires PaneCoherent(c)
    ensures PaneCoherent(ProcessData(c, data, formatNonZero))
  {
    if data.Some? && data.value != [] {
      var folders := Folders(c);
      assert PaneCoherent(folders);
      ReconcileAllKeepsCoherent(folders, data.value, ExpandedIds(folders), formatNonZero);
    }
  }

  /** Two polls of one upload, at 50% and then at 100%, in a pane that
      shows its folder: as written, the item's label says "completed"
      while its stored status stays "in-progress"; corrected, the stored
      status follows the label. */
  lemma PaneAsWrittenLosesStatus(formatNonZero: real -> string)
    ensures var f1 := SnapFile("/sdcard/a.zip", 50.0, 1.0, 2.0, "upload");
            var f2 := SnapFile("/sdcard/a.zip", 100.0, 2.0, 2.0, "upload");
            var c := [FolderChild(ViewFolder("/sdcard/", EncodeFolderId("/sdcard/"), true, [CreateItem(f1, formatNonZero)]))];
            var asWritten := ProcessDataAsWritten(c, Some([SnapFolder("/sdcard/", [f2])]), formatNonZero);
            var corrected := ProcessData(c, Some([SnapFolder("/sdcard/", [f2])]), formatNonZero);
            && |asWritten| == 1 && |asWritten[0].folder.items| == 1
            && asWritten[0].folder.items[0].statusWord == "已完成"
            && asWritten[0].folder.items[0].coarse == CoarseInProgress
            && |corrected| == 1 && |corrected[0].folder.items| == 1
            && corrected[0].folder.items[0].coarse == CoarseCompleted
  {
    var f1 := SnapFile("/sdcard/a.zip", 50.0, 1.0, 2.0, "upload");
    var f2 := SnapFile("/sdcard/a.zip", 100.0, 2.0, 2.0, "upload");
    var it := CreateItem(f1, formatNonZero);
    var vf := ViewFolder("/sdcard/", EncodeFolderId("/sdcard/"), true, [it]);
    var t := SnapFolder("/sdcard/", [f2]);
    OneFolderUpdated(vf, t, formatNonZero);
    UpdateAsWrittenLosesStatus(formatNonZero);
  }

  /** A pane of one folder, showing one item, and a snapshot of that
      folder with one file named like the item: the item is updated in
      place, as written and corrected. */
  lemma OneFolderUpdated(vf: ViewFolder, t: SnapFolder, formatNonZero: real -> string)
    requires vf.id == EncodeFolderId(t.folder) && |vf.items| == 1 && |t.files| == 1
    requires vf.items[0].name == NameOf(t.files[0])
    ensures var asWritten := ProcessDataAsWritten([FolderChild(vf)], Some([t]), formatNonZero);
      |asWritten| == 1 && asWritten[0].folder.items == [UpdateWith(vf.items[0], t.files[0], formatNonZero, false)]
    ensures var corrected := ProcessData([FolderChild(vf)], Some([t]), formatNonZero);
      |corrected| == 1 && corrected[0].folder.items == [UpdateWith(vf.items[0], t.files[0], formatNonZero, true)]
  {
    var c: Pane := [FolderChild(vf)];
    assert IsFolder(c[0], EncodeFolderId(t.folder));
    assert Folders(c) == c;
    assert vf.items == [vf.items[0]] && t.files == [t.files[0]];
    OneItemUpdated(vf.items[0], t.files[0], formatNonZero, false);
    OneItemUpdated(vf.items[0], t.files[0], formatNonZero, true);
    ReconcileAllOne(c, t, ExpandedIds(c), formatNonZero, false);
    ReconcileAllOne(c, t, ExpandedIds(c), formatNonZero, true);
  }

  /** A file named like the only item updates that item. */
  lemma OneItemUpdated(it: ItemView, f: SnapFile, formatNonZero: real -> string, refresh: bool)
    requires it.name == NameOf(f)
    ensures MergeItems([it], [f], formatNonZero, refresh) == [UpdateWith(it, f, formatNonZero, refresh)]
  {
    assert [f][..0] == [];
    assert LastWith([it], ItemName, NameOf(f)) == Some(0);
  }
}
