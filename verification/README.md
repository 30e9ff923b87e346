# HybridFileXfer desktop: transfer-status pipeline

This project models the desktop side of HybridFileXfer's transfer monitor.
The Java client records every file it uploads or downloads in a status
registry (`TransferStatusServer`): a deque of per-file states, a per-channel
speed list and a log of the last 100 connection events. The registry
publishes the deque through `/transfers`, grouped by folder. The browser
dashboard polls that endpoint and does four things with the snapshot:

- it reconciles the snapshot into a pane of folders and file items, both
  the modular dashboard (`core.js`) and the older single-file one
  (`script.js`);
- it filters the pane by direction, status, file category and a search
  text (`filters.js`);
- it saves completed files into a history store, then filters, sorts and
  renders that history grouped by folder (`history.js`);
- it lets the user tick files and folders of the history and delete their
  records (`init.js`).

The launcher (`Main.java`) parses the command line, chooses how to reach
the phone, and forwards the client's progress and speed callbacks to the
registry.

Every operation is a pure function over immutable values. The DOM is a
sequence of children, the IndexedDB store is a sequence of records, and
the snapshot is the list of folders the server emits. Clocks, the
store's success or failure, the user's answers to `confirm`, and
`adb forward` are parameters.

Modules (one file each):

- `Common`: string and sequence helpers (search, lower-casing, filter, map,
  reverse).
- `Grouping`: the reference grouping of a sequence by key, in order of
  first appearance. The server's folder map, the history's folder groups
  and the old dashboard's folder rebuild are all proved equal to it.
- `Snapshot`: the JSON snapshot as the dashboard sees it.
- `StatusServer`: the registry and the `/transfers` snapshot.
- `Launcher`: argument parsing, the launch decision, and the client callbacks.
- `Utils`: `encodeFolderId`, the file-type table, the icon lookup and the
  size format.
- `LiveView`: `processData`, `createFolderElement`, `updateFolderContent`,
  `createFileItem` and `updateFileItem` of the modular dashboard. The
  folder update and the pane take a flag that chooses the item update:
  the page's own, which never touches the stored status, or the
  corrected one. `ProcessDataAsWritten` uses the first and `ProcessData`
  the second.
- `LiveFilter`: `applyFilters` on the live pane.
- `LegacyView`: `processData` and its helpers in `script.js`.
- `History`: saving, filtering, sorting, rendering, loading and clearing
  the history.
- `Selection`: the history's check boxes, select-all and deletion.

## Model

| member | source | states |
|---|---|---|
| StatusServer.CompleteAll | HybridFileXfer-PC/src/top/weixiansen574/hybridfilexfer/TransferStatusServer.java:283-288 | every entry reads as finished (progress 100, current size equal to total size); count, order, paths, totals and directions are kept |
| StatusServer.CompleteAllIdempotent | HybridFileXfer-PC/src/top/weixiansen574/hybridfilexfer/TransferStatusServer.java:283-288 | completing a second time changes nothing |
| StatusServer.UpdateTransferStatus | HybridFileXfer-PC/src/top/weixiansen574/hybridfilexfer/TransferStatusServer.java:96-106 | the new state is the tail; every other entry is an earlier entry forced to finished, none has the new path, and every earlier entry with another path survives; the entries before the tail are exactly the finished old entries without the new path, in deque order and with their multiplicity |
| StatusServer.UpdateKeepsPathsUnique | HybridFileXfer-PC/src/top/weixiansen574/hybridfilexfer/TransferStatusServer.java:96-106 | a registry with one entry per path keeps one entry per path |
| StatusServer.UpdateIsLastWriteWins | HybridFileXfer-PC/src/top/weixiansen574/hybridfilexfer/TransferStatusServer.java:96-106 | after two updates of one path, the first state is nowhere but possibly the tail |
| StatusServer.Normalize | HybridFileXfer-PC/src/top/weixiansen574/hybridfilexfer/TransferStatusServer.java:116 | same length, no backslash left, every other character kept in place |
| StatusServer.FileInfo | HybridFileXfer-PC/src/top/weixiansen574/hybridfilexfer/TransferStatusServer.java:173-184 | the published progress is capped at 100; at or past 100 the current size reads as the total size; below 100 it is the recorded size; path normalised |
| StatusServer.FinishedIsPublishedComplete | HybridFileXfer-PC/src/top/weixiansen574/hybridfilexfer/TransferStatusServer.java:173-184 | a finished entry is published at 100 with its whole size done |
| StatusServer.FolderKeyShape | HybridFileXfer-PC/src/top/weixiansen574/hybridfilexfer/TransferStatusServer.java:116-118 | the folder key ends in '/'; with a '/' past the first character it is the path's prefix up to its last '/', else it is "/" |
| StatusServer.FolderKeyExamples | HybridFileXfer-PC/src/top/weixiansen574/hybridfilexfer/TransferStatusServer.java:116-118 | a root-level file and a path without '/' both fall under "/" |
| StatusServer.FolderMapIsGrouping | HybridFileXfer-PC/src/top/weixiansen574/hybridfilexfer/TransferStatusServer.java:108-129 | the folder map built entry by entry equals the reference grouping of the deque by folder key, each group's files newest first |
| StatusServer.TransferSnapshotShape | HybridFileXfer-PC/src/top/weixiansen574/hybridfilexfer/TransferStatusServer.java:108-167 | one published folder per distinct folder key, in reverse order of first appearance, each holding exactly its entries' file infos, newest first |
| StatusServer.TransferSnapshotPartitions | HybridFileXfer-PC/src/top/weixiansen574/hybridfilexfer/TransferStatusServer.java:108-167 | the published files are exactly the deque's file infos, as a multiset: none lost, none duplicated |
| StatusServer.TransferSnapshotFoldersUnique | HybridFileXfer-PC/src/top/weixiansen574/hybridfilexfer/TransferStatusServer.java:108-167 | no folder is published twice |
| StatusServer.TransferSnapshotFilesInOwnFolder | HybridFileXfer-PC/src/top/weixiansen574/hybridfilexfer/TransferStatusServer.java:108-167 | every published file's own folder key is the folder it is listed under |
| Common.RemoveKey | HybridFileXfer-PC/src/top/weixiansen574/hybridfilexfer/TransferStatusServer.java:103 | `removeIf` by key: exactly the elements with another key survive, in order and with their multiplicity |
| StatusServer.SurvivorsCompleted | HybridFileXfer-PC/src/top/weixiansen574/hybridfilexfer/TransferStatusServer.java:98-103 | after finishing every entry and removing the new path, the survivors are the finished old entries with another path, in deque order |
| StatusServer.UpdateSpeedInfo | HybridFileXfer-PC/src/top/weixiansen574/hybridfilexfer/TransferStatusServer.java:227-236 | a null channel changes nothing; otherwise the channel's new figures are the tail, no other entry has that channel, and the entries before the tail are exactly the old entries of the other channels, in list order |
| StatusServer.UpdateSpeedKeepsChannelsUnique | HybridFileXfer-PC/src/top/weixiansen574/hybridfilexfer/TransferStatusServer.java:227-236 | one entry per channel before implies one entry per channel after |
| StatusServer.UpdateConnectionStatus | HybridFileXfer-PC/src/top/weixiansen574/hybridfilexfer/TransferStatusServer.java:274-280 | the event is appended with the given clock reading; the log grows by one below 100 entries and keeps its size at 100, dropping only the oldest |
| StatusServer.ConnectionLogBounded | HybridFileXfer-PC/src/top/weixiansen574/hybridfilexfer/TransferStatusServer.java:274-280 | any run of events from an empty log keeps exactly the most recent min(n, 100) events, oldest first |
| Launcher.ParseArguments | HybridFileXfer-PC/src/top/weixiansen574/hybridfilexfer/Main.java:237-245 | the loop computes the reference map of flag/value pairs |
| Launcher.RecordedIffPair | HybridFileXfer-PC/src/top/weixiansen574/hybridfilexfer/Main.java:237-245 | a key is recorded exactly when it occurs as a '-' flag followed by an argument that is not a flag |
| Launcher.LastOccurrenceWins | HybridFileXfer-PC/src/top/weixiansen574/hybridfilexfer/Main.java:237-245 | a repeated flag keeps the value of its last pair |
| Launcher.ValueNeverFlag | HybridFileXfer-PC/src/top/weixiansen574/hybridfilexfer/Main.java:237-245 | the value of a pair is never itself read as a flag |
| Launcher.ParseExamples | HybridFileXfer-PC/src/top/weixiansen574/hybridfilexfer/Main.java:237-245 | a flag without a value, or one followed by another flag, is dropped; a repeated flag keeps its last value |
| Launcher.Param | HybridFileXfer-PC/src/top/weixiansen574/hybridfilexfer/Main.java:192 | `Map.get`: a value exactly when the flag was recorded |
| Launcher.Decide | HybridFileXfer-PC/src/top/weixiansen574/hybridfilexfer/Main.java:189-223 | usage without -c; adb mode fails exactly when the forward fails; otherwise it connects on port 5740 to 127.0.0.1 (adb) or the given address, with the home directory defaulting to "/" |
| Launcher.DecideExamples | HybridFileXfer-PC/src/top/weixiansen574/hybridfilexfer/Main.java:189-223 | the adb, network and missing -c cases on concrete arguments |
| Launcher.TransferProgress | HybridFileXfer-PC/src/top/weixiansen574/hybridfilexfer/Main.java:102-111 | a zero or negative total gives 0; otherwise 100 exactly when done, positive exactly when started, within 0..100 for a target within the total |
| Launcher.OnFileProgress | HybridFileXfer-PC/src/top/weixiansen574/hybridfilexfer/Main.java:102-111 | an upload or download callback makes its file the registry's tail with the direction and percentage; every other entry reads finished |
| Launcher.LastReportIsLast | HybridFileXfer-PC/src/top/weixiansen574/hybridfilexfer/Main.java:114-128 | the reference for "the last report of a channel": none is found exactly when no report names the channel, and the one found names it with no later report naming it; reports without a channel name never count |
| Launcher.ReportStep | HybridFileXfer-PC/src/top/weixiansen574/hybridfilexfer/Main.java:114-128 | handling one more report keeps the speed list in the state `ReportsApplied` describes |
| Launcher.OnSpeedInfo | HybridFileXfer-PC/src/top/weixiansen574/hybridfilexfer/Main.java:114-128 | a null report list leaves the speed list alone; after a list of reports, an entry of a reported channel carries the figures of the last report naming it, every other entry comes from the old list, the old entries of unreported channels are all kept, and every reported channel has its entry; reports without a channel name change nothing |
| Launcher.OnSpeedInfoKeepsChannelsUnique | HybridFileXfer-PC/src/top/weixiansen574/hybridfilexfer/Main.java:114-128 | a run of speed reports keeps one entry per channel |
| Utils.EncodeFolderId | JAR/www/js/utils.js:23-25 | the id is no longer than the path and holds only word characters and '-' |
| Utils.EncodeIsCharwise | JAR/www/js/utils.js:23-25 | encoding works character by character: encoding a concatenation concatenates the encodings |
| Utils.EncodeIdempotent | JAR/www/js/utils.js:23-25 | an id encodes to itself |
| Utils.EncodeFixesIds | JAR/www/js/utils.js:23-25 | a string of word characters and '-' is left unchanged |
| Utils.EncodeNotInjective | JAR/www/js/utils.js:23-25 | two different folders, "/a/" and ".a/", get the same id "-a-" |
| Utils.FileTypeCategory | JAR/www/js/utils.js:32-37 | "other" exactly when no category lists the extension; otherwise the first category in table order that lists it |
| Utils.TablesAgree | JAR/www/js/config.js:17-41 | the icon table has one entry per category, in the category table's order |
| Utils.CategoryExamples2 | JAR/www/js/utils.js:32-37 | the lookup is case-sensitive: "ZIP" is "other" |
| Utils.Lookup | JAR/www/js/utils.js:44-47 | a value exactly when the key is listed, and then one listed with that key |
| Utils.FileIcon | JAR/www/js/utils.js:44-47 | the default icon for "other"; otherwise the icon listed for the extension's category |
| Utils.FormatFileSize | JAR/www/js/utils.js:8-16 | zero is "0 KB"; any other size is the supplied formatter's text |
| Snapshot.FileName | JAR/www/js/core.js:203 | the part of the path after its last '/', which holds no '/'; the whole path when it has none |
| Snapshot.FileExt | JAR/www/js/core.js:204 | lower-cased text after the name's last '.', or the whole lower-cased name when there is no '.' |
| LiveView.Classify | JAR/www/js/core.js:209-219 | complete exactly at 100; waiting exactly at or below 0 (and not 100); uploading exactly when positive and of type "upload"; downloading otherwise |
| LiveView.CoarseAgreesWithLabel | JAR/www/js/core.js:209-226 | the stored `data-status` and the label's class agree with the label word for every progress and direction |
| LiveView.StatusWordInjective | JAR/www/js/core.js:209-219 | different statuses show different words |
| LiveView.CreateItem | JAR/www/js/core.js:202-253 | a new item carries the file's name, direction, bar width, label and size text and is coherent |
| LiveView.UpdateItem | JAR/www/js/core.js:258-306 | the update sets the bar, the label and the stored status from the new progress, and keeps name and direction |
| LiveView.UpdateWith | JAR/www/js/core.js:258-306 | the item update of either mode keeps name and direction; as written it keeps the stored status, corrected it sets it from the progress; otherwise the two modes agree |
| LiveView.UpdateWithIdempotent | JAR/www/js/core.js:258-306 | in either mode, updating twice with the same file is updating once |
| LiveView.UpdateWithCreated | JAR/www/js/core.js:258-306 | in either mode, updating a freshly created item with its own file only clears the template padding |
| LiveView.PercentCanLag | JAR/www/js/core.js:289-292 | steps of less than one percent move the bar but leave the label's percentage behind |
| LiveView.UpdateItemAsWritten | JAR/www/js/core.js:258-306 | as written: label and bar follow the file but the stored status never changes |
| LiveView.UpdateAsWrittenLosesStatus | JAR/www/js/core.js:289-305 | an item that completes after creation says "completed" on its label but is stored as in progress |
| LiveView.PaneAsWrittenLosesStatus | JAR/www/js/core.js:184-189 | two polls of one upload, at 50% and then at 100%: as written the pane's item says "已完成" but keeps the stored status "in-progress"; corrected the stored status is "completed" |
| LiveView.OneFolderUpdated | JAR/www/js/core.js:73-90 | a one-folder pane polled with one file named like its only item updates that item in place, by the page's own update as written and by the corrected one in ProcessData |
| LiveView.MergeClosedForm | JAR/www/js/core.js:164-197 | in either item-update mode, with distinct file names, an existing item is updated by the file of its name (when the name table maps to it) and left alone otherwise, and the remaining files are appended as new items in order |
| LiveView.MergeItems | JAR/www/js/core.js:164-197 | existing items keep their place and names; at most one new item per file (the item update is the page's own or the corrected one, chosen by a flag) |
| LiveView.MergeKeepsNamesUnique | JAR/www/js/core.js:164-197 | distinct item names stay distinct |
| LiveView.MergeCoversFiles | JAR/www/js/core.js:164-197 | every file of the snapshot has an item of its name afterwards |
| LiveView.MergeSettles | JAR/www/js/core.js:164-197 | in either item-update mode, reconciling the same files twice shows the same on screen as once |
| LiveView.FreshFromFiles | JAR/www/js/core.js:183-196 | new items come only from files that no existing item answers to |
| LiveView.FreshCoversFiles | JAR/www/js/core.js:183-196 | every file that no existing item answers to gets a new item |
| LiveView.FindFolder | JAR/www/js/core.js:78 | `getElementById`: the first folder with that id, or none when no folder has it |
| LiveView.Touch | JAR/www/js/core.js:84-89 | in either item-update mode, a folder keeps path and id, stays expanded if it was, and its items only grow |
| LiveView.Reconcile | JAR/www/js/core.js:73-90 | in either item-update mode, one transfer keeps every child in place (folders may grow), only adds a folder at the end, and leaves the transfer's folder findable |
| LiveView.ReconcileAll | JAR/www/js/core.js:73-90 | in either item-update mode, every transfer's folder is findable afterwards and the pane only extends |
| LiveView.ReconcileAllNewFolders | JAR/www/js/core.js:147-152 | folders created while reconciling sit at the end, were not expanded before, and are expanded exactly when created into an empty container |
| LiveView.ReconcileAllKeepsIdsUnique | JAR/www/js/core.js:73-90 | no two folders ever share an id |
| LiveView.ProcessDataAsWritten | JAR/www/js/core.js:61-93 | as written, with the page's own item update, which leaves the stored status alone: no transfers gives the "connected" notice; otherwise the pane only extends, notice included |
| LiveView.ProcessDataAsWrittenKeepsNotice | JAR/www/js/core.js:40 | as written, a notice stays above the folders and no newly created folder is expanded |
| LiveView.FirstSnapshotAsWritten | JAR/www/js/core.js:147-152 | the first snapshot after page load shows the notice and a collapsed folder |
| LiveView.ProcessData | JAR/www/js/core.js:61-93 | with the corrected item update: no transfers gives the "connected" notice; otherwise only folders, extending the old folders |
| LiveView.ProcessDataFolders | JAR/www/js/core.js:61-93 | every transfer has its folder; expanded folders stay expanded; a new folder is expanded exactly when there was no folder before; ids stay unique |
| LiveView.FirstSnapshotCorrected | JAR/www/js/core.js:147-152 | the first snapshot after page load shows its one folder expanded |
| LiveView.ProcessDataKeepsCoherent | JAR/www/js/core.js:61-93 | every item of the pane keeps its stored status in agreement with its label |
| LiveFilter.FilterFolder | JAR/www/js/filters.js:18-36 | an item is shown exactly when it passes all four filters; a folder exactly when one of its items is |
| LiveFilter.ApplyFilters | JAR/www/js/filters.js:3-36 | one display per folder of the pane, notices untouched |
| LiveFilter.NoFilterShowsAll | JAR/www/js/filters.js:18-36 | with every filter off all items are shown, and a folder exactly when it has items |
| LiveFilter.TighterHidesMore | JAR/www/js/filters.js:18-36 | a tighter filter never shows an item a looser one hides |
| LiveFilter.SearchIgnoresCase | JAR/www/js/filters.js:15 | the search is case-insensitive on both sides |
| LiveFilter.StatusFilterMatchesLabel | JAR/www/js/filters.js:21 | for a coherent item the status filter shows exactly the items whose label shows that status |
| LiveFilter.StatusFilterAfterUpdate | JAR/www/js/filters.js:21 | after an update to 100 the corrected item passes the "completed" filter and the as-written item does not |
| LegacyView.FindLegacy | JAR/www/script.js:189 | the first folder with that id, or none when no folder has it |
| LegacyView.ProcessDataLegacy | JAR/www/script.js:176-196 | the "no transfers" notice exactly when the snapshot is missing or empty |
| LegacyView.LegacyFoldClosedForm | JAR/www/script.js:176-258 | the rebuilt pane has one folder per distinct id in order of first appearance, with the path of the first transfer of that id, the files of the last, and only the first folder expanded |
| LegacyView.LegacyShowsEveryTransfer | JAR/www/script.js:176-258 | every transfer has a folder, ids are unique, and exactly the first folder is expanded |
| LegacyView.CreateAll | JAR/www/script.js:266-325 | a folder's content is one new item per file, in order |
| History.Round | JAR/www/js/history.js:46 | `Math.round`: the integer nearest the value, halves rounded up |
| History.CreateHistoryRecord | JAR/www/js/history.js:37-53 | a record is completed at 100, carries the file's current size as its size, ends at the clock reading and starts round(10 × size) milliseconds earlier; name, extension and category as given |
| History.InFoldersAt | JAR/www/js/history.js:12-22 | a candidate of `InFolders` is the file at some position of some folder, paired with that folder |
| History.Candidates | JAR/www/js/history.js:12-22 | the candidates are exactly the files at 100 of the snapshot, with their folders: every candidate is completed and is a file of one of the folders paired with that folder, and every completed file of every folder is a candidate |
| History.RecordOfFoldersAt | JAR/www/js/history.js:12-22 | a record of `RecordOfFolders` is what the record maker makes of a completed file at some position of some folder |
| History.CandidateRecord | JAR/www/js/history.js:12-22 | the record made from any candidate is the record of a completed file of the snapshot |
| History.SaveInto | JAR/www/js/history.js:12-24 | the store only grows, and a stored record is added only when its name was not already stored |
| History.SaveIntoCovers | JAR/www/js/history.js:12-24 | afterwards every candidate's name is in the store |
| History.SaveIntoKeepsNamesUnique | JAR/www/js/history.js:12-24 | a store with unique names keeps unique names |
| History.SaveIntoNothingNew | JAR/www/js/history.js:12-24 | saving names that are all stored changes nothing |
| History.AsWrittenAgreesOnDistinctNames | JAR/www/js/history.js:12-24 | when the candidates' names are distinct, checking the store as it was and as it grows agree |
| History.SaveCompletedAsWritten | JAR/www/js/history.js:6-27 | as written: nothing without a store or snapshot; the store only grows |
| History.SaveAsWrittenDuplicates | JAR/www/js/history.js:12-24 | as written, two completed files of the same name in two folders are both saved, under one name |
| History.SaveCompleted | JAR/www/js/history.js:6-27 | nothing without a store or snapshot; the store only grows |
| History.SaveCompletedAddsFileRecords | JAR/www/js/history.js:6-27 | every record a sweep adds is the record, stamped with the sweep's clock reading, of a completed file of the snapshot in its folder |
| History.SaveCompletedProperties | JAR/www/js/history.js:6-27 | names stay unique, every completed file's name is stored, each added record is completed, stamped with the clock reading, new to the store and the record of a completed file of the snapshot, and a later sweep of the same snapshot adds nothing |
| History.SaveCorrectedStoresOnce | JAR/www/js/history.js:12-24 | two completed files of the same name are stored once, as the first |
| History.FilterPassesMatch | JAR/www/js/history.js:109-131 | the five successive passes keep exactly the records matching all filters, in order |
| History.SortDesc | JAR/www/js/history.js:133 | the result is sorted by descending end time and is a permutation of the input |
| History.SortIsStable | JAR/www/js/history.js:133 | records with equal end times keep their relative order |
| History.FilterHistoryContents | JAR/www/js/history.js:98-134 | the result is sorted newest first, a permutation of the matching records, ties in store order |
| History.FilterHistoryMembers | JAR/www/js/history.js:98-134 | a record is listed exactly when it is stored and matches the filters |
| History.NoHistoryFilterKeepsAll | JAR/www/js/history.js:98-134 | with no filter set, every stored record is listed |
| History.HistorySearchIgnoresCase | JAR/www/js/history.js:122-125 | the history search is case-insensitive on both sides |
| History.RenderHistory | JAR/www/js/history.js:140-162 | the placeholder exactly when there is nothing to show |
| History.RenderHistoryGroups | JAR/www/js/history.js:148-161 | one folder element per distinct folder path in order of first appearance, each listing exactly its records, only the first expanded |
| History.RenderHistoryPartitions | JAR/www/js/history.js:148-161 | the rendered records are exactly the listed ones, each under its own folder |
| History.LoadHistory | JAR/www/js/history.js:58-76 | nothing without a store; the failure notice when reading fails; otherwise the rendered pane, whose only notice is the placeholder |
| History.LoadShowsPlaceholder | JAR/www/js/history.js:58-76 | the placeholder shows exactly when no stored record matches the filters |
| History.ClearHistory | JAR/www/js/history.js:257-276 | nothing without a store or confirmation; otherwise the store is emptied, or kept with an alert when clearing fails |
| History.ClearThenLoad | JAR/www/js/history.js:257-276 | after a clear the pane is what loading the empty store shows |
| Selection.Selectable | JAR/www/js/history.js:170-252 | one unticked box per rendered folder and per record, with the folder's path, id and expansion |
| Selection.RenderedIds | JAR/www/js/history.js:171-174 | each rendered folder's id is the encoded folder path |
| Selection.FindById | JAR/www/js/init.js:60 | the first folder with that id, or none when no folder has it |
| Selection.FolderCheck | JAR/www/js/init.js:56-71 | ticking a folder box expands that folder and sets all its files' boxes to the folder's box |
| Selection.FolderCheckAgrees | JAR/www/js/init.js:56-71 | when ids are unique, the lookup by id reaches the clicked folder |
| Selection.FolderCheckAsWritten | JAR/www/js/init.js:56-71 | as written: the clicked box is set and, through the header's own listener, the clicked folder's expansion flips; when no folder has the id the flipped expansion stays; the files reached are those of the first folder with the same id |
| Selection.FolderCheckAsWrittenWrongFolder | JAR/www/js/init.js:56-71 | for folders "/a/" and ".a/", ticking the second ticks the first folder's files and not its own; the second folder ends up expanded only through its header's toggle |
| Selection.ToggleSelectAll | JAR/www/js/init.js:75-92 | every box set to whether the button read "select all", every folder expanded, and the label flipped |
| Selection.ToggleTwice | JAR/www/js/init.js:75-92 | selecting all and then deselecting all leaves nothing ticked |
| Selection.SelectedFiles | JAR/www/js/init.js:101-102 | exactly the paths of the ticked file boxes |
| Selection.SelectedFolders | JAR/www/js/init.js:105-106 | exactly the paths of the ticked folder boxes |
| Selection.DeleteRecords | JAR/www/js/init.js:152-191 | a record survives exactly when neither its name matches a selected file's name nor its folder a selected folder |
| Selection.DeleteRecordsIdempotent | JAR/www/js/init.js:152-191 | deleting twice is deleting once |
| Selection.DeleteNothing | JAR/www/js/init.js:152-191 | an empty selection deletes nothing |
| Selection.DeleteByNameReachesOtherFolders | JAR/www/js/init.js:158-170 | deleting a file by its path also deletes same-named records of other folders |
| Selection.DeleteSelected | JAR/www/js/init.js:97-145 | nothing without a store; an alert and no change when nothing is ticked; the store changes only after confirmation and a successful transaction, then the selection is deleted, the history reloaded and the button reset |
| Selection.CheckFolderThenDelete | JAR/www/js/init.js:56-145 | ticking a folder and confirming deletes every record of that folder |

## Left out

- HTTP serving, JSON serialisation and quote escaping (TransferStatusServer.java:144 and 176-177) are not modelled. The snapshot is taken as the list of folders that `JSON.parse` returns, which undoes the escaping.
- The order of a JavaScript object's keys is not modelled. Folder keys always end in '/', so they are never integer-like, and insertion order is kept.
- `getSpeedInfoJson`, `getConnectionStatusJson` and the unused `buildJsonFromTree` only format text, so they are not modelled.
- The registry's concurrent deques are not modelled: each call is one atomic step.
- Timers (`setupRefreshInterval`, `setupHistorySaveInterval`), `fetch` and the asynchronous IndexedDB requests are left out. A store read, a transaction's success, a clearing's success and the user's `confirm` answer become parameters.
- The wall clock becomes a `now` parameter.
- Java doubles and JavaScript numbers are modelled as exact reals. `toFixed(2)` rounding is not modelled: the bar width and percentage keep the exact progress.
- Utils.FormatFileSize: sizes other than zero are formatted by a parameter (`formatNonZero`). The logarithm and the unit choice are not modelled.
- The date filter of the history is abstracted as a `sameDay` parameter, because `toDateString` depends on the local time zone.
- Lower-casing covers ASCII letters only.
- The white space that the creation template leaves in the labels is recorded as a flag, not as text.
- `executeAdbForwardCommand` runs external processes, so its result is a parameter. The connection itself, the client's other callbacks and `onComplete` (Main.java:164-166, which calls `completeAllTransfers`) are modelled only through StatusServer.CompleteAll.
- LiveFilter.ApplyFilters: the page's `applyFilters` also visits history items and folders, which carry the same class names. The model covers the live pane only. History items (history.js:228-246) carry no `data-*` attributes. So when the type, status and file-type filters are all "all" and the search text is not empty, `item.dataset.name.includes` (filters.js:23) throws at the first history item. The live items before it keep their new display, the items after it keep their old one, and the folder pass (filters.js:28-36) never runs. The call at the end of `processData` (core.js:92) throws the same way while history items are in the page. With any other filter set, history items are simply hidden. The model promises its displays only for a page without history items.
- `history.js` declares a second `applyFilters` (history.js:283-319) that replaces the one in `filters.js` when both are loaded. The model follows `filters.js`. The second one tests the same four conditions, visits the same items and folders, and has no date filter, so the two behave alike.
- Deleting files on disk through `aardio.deletefile` and the "open folder" button are host calls, and their results are ignored by the page.
- The folder check box: the box sits inside the folder header (history.js:182-186), so the header's click listener (history.js:216) flips the folder's expansion before the document-level handler runs. When no folder has the encoded id, `getElementById` returns null and that handler throws. The model keeps the clicked box's new state and the flipped expansion, which is what the page shows after the exception.
- Selection.ToggleSelectAll: expanding "all folders" also expands the live pane's folders, which is not modelled.
- The history's clear button is wired to `deleteSelectedFiles` (init.js:50). History.ClearHistory models `clearHistory` as written.
- LiveView.MergeClosedForm assumes distinct file names within a folder. Two files of one folder can share a name while their raw paths differ. One case is two raw paths that differ only in '\\' versus '/'. The other is the root folder: a path with no '/' after its first character is listed under "/", so "a.txt" and "/a.txt" are both the file "a.txt" of "/" (StatusServer.FolderKeyExamples). For such folders only LiveView.MergeItems' own contract applies.
- MergeItems: the name table at core.js:175 is a plain object. A file name that is a member of `Object.prototype` ("constructor", "toString", "valueOf", "hasOwnProperty", "__proto__", …) therefore looks like an existing item at core.js:187 even when no item has that name. `updateFileItem` is then called on a function or on the prototype, and it throws. The model looks names up only among the items, so it promises nothing for such names. The name is also written into the item with `innerHTML` (core.js:236) and read back with `textContent` (core.js:178). A name holding `<` or a character reference ("a<b.txt", "x&amp;y.txt", "a&not.txt") reads back as different text. Its lookup then misses, and every poll appends another item for the same file. The model compares the names as given, so for such names the page shows duplicates that the model does not.
- SaveCompletedProperties: every record of one sweep is stamped with one clock reading, `now`. The page calls `new Date()` once per record, in each lookup's callback (history.js:18-20 and 38). So the page's end times within one sweep rise slightly in callback order, and the newest-first sort of History.SortDesc can order those records differently from the model.
- Legacy folders keep their files instead of the rendered items; LegacyView.CreateAll gives the items.

## Findings

| source | as written | input that shows it | evidently intended | confidence | as-written member | corrected member |
|---|---|---|---|---|---|---|
| JAR/www/js/core.js:289-305 | `updateFileItem` rewrites the label and the bar but never `data-status` | an item created at 50% that later reaches 100%: its label says "已完成", its `data-status` stays "in-progress", so the "completed" filter hides it | the stored status follows the progress, as in `createFileItem` | not executed | LiveView.UpdateItemAsWritten | LiveView.UpdateItem |
| JAR/www/js/core.js:40 | the "not connected" notice set at load is never cleared when the first snapshot with transfers arrives | the first snapshot `[{folder: "/sdcard/", files: []}]`: the pane shows the notice and then one folder, which is collapsed because the container already has a child | the notice is removed and the first folder opens expanded | not executed | LiveView.ProcessDataAsWritten | LiveView.ProcessData |
| JAR/www/js/history.js:12-24 | the store is read once at the start of the sweep, and candidates are checked against that old copy | two completed files `a/x.txt` and `b/x.txt` in one snapshot: both are saved, and the store holds two records named `x.txt` | a name is stored at most once, so each sweep checks the records it has just added | not executed | History.SaveCompletedAsWritten | History.SaveCompleted |
| JAR/www/js/init.js:56-71 | the clicked folder is found again by its encoded id | history folders "/a/" and ".a/" share the id "-a-": ticking the second folder's box ticks the first folder's files and leaves its own unticked | the box acts on the folder it belongs to | not executed | Selection.FolderCheckAsWritten | Selection.FolderCheck |

In each row the as-written member is exhibited by a lemma:

- Finding 1: LiveView.UpdateAsWrittenLosesStatus, LiveView.PaneAsWrittenLosesStatus and LiveFilter.StatusFilterAfterUpdate.
- Finding 2: LiveView.FirstSnapshotAsWritten and LiveView.ProcessDataAsWrittenKeepsNotice.
- Finding 3: History.SaveAsWrittenDuplicates.
- Finding 4: Selection.FolderCheckAsWrittenWrongFolder.

Each corrected member has its intended property proved:

- Finding 1: LiveFilter.StatusFilterMatchesLabel and LiveView.ProcessDataKeepsCoherent.
- Finding 2: LiveView.FirstSnapshotCorrected and LiveView.ProcessDataFolders.
- Finding 3: History.SaveCompletedProperties and History.SaveCorrectedStoresOnce.
- Finding 4: Selection.FolderCheckAgrees.
