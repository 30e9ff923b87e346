/** The filters of the live pane: direction, status, file category and a
    search text. An item is shown when it passes all four; a folder is
    shown when at least one of its items is. */
module LiveFilter {
  import opened Common
  import opened Snapshot
  import opened LiveView

  datatype FilterValues = FilterValues(kind: string, status: string, fileType: string, search: string)

  const NoFilter: FilterValues := FilterValues(All, All, All, "")

  /** Whether an item passes the filters. The search text is lower-cased
      and an empty one matches everything. */
  predicate Visible(it: ItemView, fv: FilterValues) {
    var search := Lower(fv.search);
    && (fv.kind == All || it.kind == fv.kind)
    && (fv.status == All || it.coarse == fv.status)
    && (fv.fileType == All || Category(it) == fv.fileType)
    && (search == [] || Contains(LowerName(it), search))
  }

  /** What the filters do to one folder. */
  datatype FolderDisplay = FolderDisplay(shown: bool, itemsShown: seq<bool>)

  /** Whether some item of `items` passes the filters. */
  predicate AnyVisible(items: seq<ItemView>, fv: FilterValues) {
    exists i | 0 <= i < |items| :: Visible(items[i], fv)
  }

  /** `applyFilters` on one folder: each item shown or hidden, and the
      folder shown exactly when one of its items is. */
  function FilterFolder(vf: ViewFolder, fv: FilterValues): (r: FolderDisplay)
    ensures |r.itemsShown| == |vf.items|
    ensures forall i | 0 <= i < |vf.items| :: r.itemsShown[i] == Visible(vf.items[i], fv)
    ensures r.shown <==> exists i | 0 <= i < |vf.items| :: r.itemsShown[i]
  {
    FolderDisplay(AnyVisible(vf.items, fv), seq(|vf.items|, i requires 0 <= i < |vf.items| => Visible(vf.items[i], fv)))
  }

  /** `applyFilters` on the pane: one display per folder, in pane order;
      notices are left alone. */
  function ApplyFilters(c: Pane, fv: FilterValues): (r: seq<Option<FolderDisplay>>)
    ensures |r| == |c|
    ensures forall j | 0 <= j < |c| :: r[j].Some? <==> c[j].FolderChild?
    ensures forall j | 0 <= j < |c| && c[j].FolderChild? :: r[j] == Some(FilterFolder(c[j].folder, fv))
  {
    seq(|c|, j requires 0 <= j < |c| => if c[j].FolderChild? then Some(FilterFolder(c[j].folder, fv)) else None)
  }

  /** With every filter off, every item and every non-empty folder is
      shown. */
  lemma NoFilterShowsAll(vf: ViewFolder)
    ensures forall i | 0 <= i < |vf.items| :: Visible(vf.items[i], NoFilter)
    ensures FilterFolder(vf, NoFilter).shown <==> vf.items != []
  {
    LowerEmpty("");
    if vf.items != [] {
      assert Visible(vf.items[0], NoFilter);
    }
  }

  /** `strict` filters at least as much as `loose`: each selector of
      `loose` is off or agrees with `strict`, and the search text of
      `loose` occurs in that of `strict`. */
  predicate Tighter(strict: FilterValues, loose: FilterValues) {
    && (loose.kind == All || loose.kind == strict.kind)
    && (loose.status == All || loose.status == strict.status)
    && (loose.fileType == All || loose.fileType == strict.fileType)
    && Contains(Lower(strict.search), Lower(loose.search))
  }

  /** Tightening a filter never shows an item that was hidden. */
  lemma TighterHidesMore(it: ItemView, strict: FilterValues, loose: FilterValues)
    requires Tighter(strict, loose) && Visible(it, strict)
    ensures Visible(it, loose)
  {
    var s, l := Lower(strict.search), Lower(loose.search);
    if l != [] && s != [] {
      ContainsTransitive(LowerName(it), s, l);
    }
  }

  /** The search ignores case on both sides: an item matches a search text
      exactly when its lower-cased name contains the lower-cased text. */
  lemma SearchIgnoresCase(it: ItemView, fv: FilterValues)
    ensures Visible(it, fv) == Visible(it, fv.(search := Lower(fv.search)))
    ensures Visible(it, NoFilter.(search := fv.search)) <==>
              fv.search == [] || Contains(Lower(it.name), Lower(fv.search))
  {
    LowerIdempotent(fv.search);
    LowerEmpty(fv.search);
  }

  /** For a coherent item, filtering by status shows exactly the items
      whose label shows that status. */
  lemma StatusFilterMatchesLabel(it: ItemView)
    requires Coherent(it)
    ensures Visible(it, NoFilter.(status := CoarseCompleted)) <==> it.statusWord == "已完成"
    ensures Visible(it, NoFilter.(status := CoarseInProgress)) <==> it.statusWord in {"上传中...", "下载中..."}
    ensures Visible(it, NoFilter.(status := CoarseQueued)) <==> it.statusWord == "等待中"
  {
    LowerEmpty("");
  }

  /** In a pane kept by `ProcessData`, the status filter agrees with the
      labels; as written, an item that completed after it was created is
      hidden by the "completed" filter although its label says so. */
  lemma StatusFilterAfterUpdate(formatNonZero: real -> string)
    ensures var f1 := SnapFile("/sdcard/a.zip", 50.0, 1.0, 2.0, "upload");
            var f2 := SnapFile("/sdcard/a.zip", 100.0, 2.0, 2.0, "upload");
            var completedOnly := NoFilter.(status := CoarseCompleted);
            && Visible(UpdateItem(CreateItem(f1, formatNonZero), f2, formatNonZero), completedOnly)
            && !Visible(UpdateItemAsWritten(CreateItem(f1, formatNonZero), f2, formatNonZero), completedOnly)
  {
    LowerEmpty("");
  }
}
