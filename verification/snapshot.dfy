/** The snapshot the status server publishes and the dashboard reads: a list
    of folders, each with its files. Progress is a percentage and sizes are
    in kilobytes, all as unrounded numbers. */
module Snapshot {
  import opened Common

  datatype SnapFile = SnapFile(path: string, progress: real, currentSize: real, totalSize: real, kind: string)

  datatype SnapFolder = SnapFolder(folder: string, files: seq<SnapFile>)

  /** A fetched snapshot; `None` when the response has no `transfers`. */
  type Snapshot = Option<seq<SnapFolder>>

  /** `path.split('/').pop()`: the file name, the text after the last `/`. */
  function FileName(path: string): (r: string)
    ensures '/' !in r && |r| <= |path| && r == path[|path| - |r|..]
    ensures '/' !in path ==> r == path
  {
    LastSegment(path, '/')
  }

  /** `name.split('.').pop().toLowerCase()`: the extension, lower-cased; the
      whole name when it holds no dot. */
  function FileExt(name: string): (r: string)
    ensures |r| <= |name|
    ensures '.' !in name ==> r == Lower(name)
    ensures '.' in name ==> exists k | 0 <= k < |name| ::
              name[k] == '.' && '.' !in name[k + 1..] && r == Lower(name[k + 1..])
  {
    var seg := LastSegment(name, '.');
    assert '.' in name ==> name[|name| - |seg| - 1] == '.' && name[|name| - |seg|..] == seg;
    Lower(seg)
  }

  /** Every file of every folder, folder after folder. */
  function AllFiles(folders: seq<SnapFolder>): (r: seq<SnapFile>)
    ensures forall j, i | 0 <= j < |folders| && 0 <= i < |folders[j].files| :: folders[j].files[i] in r
  {
    if folders == [] then [] else folders[0].files + AllFiles(folders[1..])
  }
}
