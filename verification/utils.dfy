/** The dashboard's helpers: the folder-path to element-id encoding, the
    extension to category table and its icons, and the zero case of the size
    formatter. */
module Utils {
  import opened Common

  // ---------------------------------------------------------------------
  // Folder ids

  /** The characters `[\w-]` matches: ASCII letters, digits, `_` and `-`. */
  predicate IdChar(c: char) {
    'A' <= c <= 'Z' || 'a' <= c <= 'z' || '0' <= c <= '9' || c == '_' || c == '-'
  }

  /** First pass: every `/` and every `.` becomes `-`. */
  function DashSeparators(s: string): (r: string)
    ensures |r| == |s|
    ensures forall i | 0 <= i < |s| :: r[i] == if s[i] == '/' || s[i] == '.' then '-' else s[i]
  {
    if s == [] then [] else [if s[0] == '/' || s[0] == '.' then '-' else s[0]] + DashSeparators(s[1..])
  }

  /** Second pass: drop every character outside `[\w-]`. */
  function StripNonId(s: string): (r: string)
    ensures |r| <= |s|
    ensures forall i | 0 <= i < |r| :: IdChar(r[i])
  {
    if s == [] then []
    else if IdChar(s[0]) then [s[0]] + StripNonId(s[1..])
    else StripNonId(s[1..])
  }

  /** `encodeFolderId(path)`: the two regular-expression rewrites in turn. */
  function EncodeFolderId(path: string): (r: string)
    ensures |r| <= |path|
    ensures forall i | 0 <= i < |r| :: IdChar(r[i])
  {
    StripNonId(DashSeparators(path))
  }

  /** What one character of a path contributes to its id. */
  function EncodeChar(c: char): string {
    if c == '/' || c == '.' then "-" else if IdChar(c) then [c] else []
  }

  lemma {:induction false} StripAppend(a: string, b: string)
    ensures StripNonId(a + b) == StripNonId(a) + StripNonId(b)
  {
    if a == [] {
      assert a + b == b;
    } else {
      assert (a + b)[1..] == a[1..] + b;
      StripAppend(a[1..], b);
    }
  }

  lemma DashAppend(a: string, b: string)
    ensures DashSeparators(a + b) == DashSeparators(a) + DashSeparators(b)
  {
  }

  /** The encoding works character by character: the id of a concatenation
      is the concatenation of the ids, and a single character is kept when
      it is in `[\w-]`, turned into `-` when it is `/` or `.`, and dropped
      otherwise. */
  lemma EncodeIsCharwise(a: string, b: string, c: char)
    ensures EncodeFolderId(a + b) == EncodeFolderId(a) + EncodeFolderId(b)
    ensures EncodeFolderId([c]) == EncodeChar(c)
  {
    DashAppend(a, b);
    StripAppend(DashSeparators(a), DashSeparators(b));
    assert StripNonId(DashSeparators([c])) == StripNonId([DashSeparators([c])[0]]);
  }

  /** A string made only of id characters is its own id. */
  lemma {:induction false} EncodeFixesIds(s: string)
    requires forall i | 0 <= i < |s| :: IdChar(s[i])
    ensures EncodeFolderId(s) == s
  {
    if s != [] {
      EncodeFixesIds(s[1..]);
      assert DashSeparators(s) == [s[0]] + DashSeparators(s[1..]);
    }
  }

  /** Encoding an id again changes nothing. */
  lemma EncodeIdempotent(path: string)
    ensures EncodeFolderId(EncodeFolderId(path)) == EncodeFolderId(path)
  {
    EncodeFixesIds(EncodeFolderId(path));
  }

  lemma EncodeExample()
    ensures EncodeFolderId("/a.b") == "-a-b"
  {
    assert DashSeparators("/a.b") == "-a-b";
    EncodeFixesIds("-a-b");
  }

  /** Two different folder paths can share an id. */
  lemma EncodeNotInjective()
    ensures "/a/" != ".a/" && EncodeFolderId("/a/") == EncodeFolderId(".a/") == "-a-"
  {
  }

  // ---------------------------------------------------------------------
  // File categories and icons

  /** The category table, in declaration order. */
  const FileTypes: seq<(string, seq<string>)> := [
    ("archive", ["zip", "rar", "7z", "tar", "gz"]),
    ("executable", ["exe", "msi", "bat", "cmd", "sh"]),
    ("apk", ["apk"]),
    ("document", ["pdf", "doc", "docx", "xls", "xlsx", "ppt", "pptx"]),
    ("image", ["jpg", "jpeg", "png", "gif", "bmp", "svg"]),
    ("video", ["mp4", "mov", "avi", "mkv", "flv", "wmv"]),
    ("audio", ["mp3", "wav", "ogg", "flac", "aac"]),
    ("iso", ["iso", "img", "bin"]),
    ("text", ["txt", "log", "ini", "conf", "json", "xml", "html", "css", "js"])
  ]

  const Other: string := "other"

  /** The icon table; the categories' icons and the fallback. */
  const FileIcons: seq<(string, string)> := [
    ("archive", "\U{1F5DC}\U{FE0F}"),
    ("executable", "\U{2699}\U{FE0F}"),
    ("apk", "\U{1F4F1}"),
    ("document", "\U{1F4DD}"),
    ("image", "\U{1F5BC}\U{FE0F}"),
    ("video", "\U{1F3AC}"),
    ("audio", "\U{1F3B5}"),
    ("iso", "\U{1F4BF}"),
    ("text", "\U{1F4C4}")
  ]

  const DefaultIcon: string := "\U{1F4C4}"

  /** The first entry of `table` whose extension list holds `ext`, else
      "other". */
  function FirstCategory(table: seq<(string, seq<string>)>, ext: string): (r: string)
    requires forall i | 0 <= i < |table| :: table[i].0 != Other
    ensures r == Other <==> forall i | 0 <= i < |table| :: ext !in table[i].1
    ensures r != Other ==> exists i | 0 <= i < |table| ::
              table[i].0 == r && ext in table[i].1 && forall j | 0 <= j < i :: ext !in table[j].1
  {
    if table == [] then Other
    else if ext in table[0].1 then table[0].0
    else
      var r := FirstCategory(table[1..], ext);
      assert r != Other ==> exists i | 0 <= i < |table[1..]| ::
        table[1..][i].0 == r && ext in table[1..][i].1 && forall j | 0 <= j < i :: ext !in table[1..][j].1;
      if r != Other then
        var i :| 0 <= i < |table[1..]| && table[1..][i].0 == r && ext in table[1..][i].1
                 && forall j | 0 <= j < i :: ext !in table[1..][j].1;
        assert table[i + 1].0 == r && ext in table[i + 1].1;
        assert forall j | 0 <= j < i + 1 :: ext !in table[j].1 by {
          forall j | 0 <= j < i + 1 ensures ext !in table[j].1 {
            if j > 0 { assert table[j] == table[1..][j - 1]; }
          }
        }
        r
      else r
  }

  /** `getFileTypeCategory(ext)`: the first category in table order whose
      list holds `ext` (an exact, case-sensitive match), else "other". */
  function FileTypeCategory(ext: string): (r: string)
    ensures r == Other <==> forall i | 0 <= i < |FileTypes| :: ext !in FileTypes[i].1
    ensures r != Other ==> exists i | 0 <= i < |FileTypes| ::
              FileTypes[i].0 == r && ext in FileTypes[i].1 && forall j | 0 <= j < i :: ext !in FileTypes[j].1
  {
    FirstCategory(FileTypes, ext)
  }

  lemma TablesAgree()
    ensures |FileIcons| == |FileTypes|
    ensures forall i | 0 <= i < |FileTypes| :: FileIcons[i].0 == FileTypes[i].0
  {
  }

  lemma CategoryExamples()
    ensures FileTypeCategory("zip") == "archive"
  {
    assert "zip" in FileTypes[0].1;
  }

  lemma CategoryExamples2()
    ensures FileTypeCategory("ZIP") == Other
  {
    assert "ZIP" !in FileTypes[0].1;
    assert "ZIP" !in FileTypes[1].1;
    assert "ZIP" !in FileTypes[2].1;
    assert "ZIP" !in FileTypes[3].1;
    assert "ZIP" !in FileTypes[4].1;
    assert "ZIP" !in FileTypes[5].1;
    assert "ZIP" !in FileTypes[6].1;
    assert "ZIP" !in FileTypes[7].1;
    assert "ZIP" !in FileTypes[8].1;
  }

  /** The value stored under `key`, if any. */
  function Lookup(table: seq<(string, string)>, key: string): (r: Option<string>)
    ensures r.Some? <==> exists i | 0 <= i < |table| :: table[i].0 == key
    ensures r.Some? ==> exists i | 0 <= i < |table| :: table[i].0 == key && table[i].1 == r.value
  {
    if table == [] then None
    else if table[0].0 == key then Some(table[0].1)
    else
      var r := Lookup(table[1..], key);
      assert forall i | 0 <= i < |table[1..]| :: table[1..][i] == table[i + 1];
      r
  }

  /** `getFileIcon(ext)`: the icon of the extension's category, or the
      default icon when the category has none (which is the case exactly for
      "other"). */
  function FileIcon(ext: string): (r: string)
    ensures FileTypeCategory(ext) == Other ==> r == DefaultIcon
    ensures FileTypeCategory(ext) != Other ==>
              exists i | 0 <= i < |FileIcons| :: FileIcons[i].0 == FileTypeCategory(ext) && FileIcons[i].1 == r
  {
    var category := FileTypeCategory(ext);
    assert category != Other ==> Lookup(FileIcons, category).Some? by {
      if category != Other {
        TablesAgree();
        var i :| 0 <= i < |FileTypes| && FileTypes[i].0 == category && ext in FileTypes[i].1;
        assert FileIcons[i].0 == category;
      }
    }
    assert category == Other ==> Lookup(FileIcons, category).None? by {
      if category == Other {
        TablesAgree();
        assert forall i | 0 <= i < |FileIcons| :: FileIcons[i].0 != Other;
      }
    }
    match Lookup(FileIcons, category)
    case Some(icon) => icon
    case None => DefaultIcon
  }

  // ---------------------------------------------------------------------
  // Sizes

  /** `formatFileSize(kb)`: "0 KB" for zero; other sizes go through a
      floating-point rendering that is passed in. */
  function FormatFileSize(kb: real, formatNonZero: real -> string): (r: string)
    ensures kb == 0.0 ==> r == "0 KB"
    ensures kb != 0.0 ==> r == formatNonZero(kb)
  {
    if kb == 0.0 then "0 KB" else formatNonZero(kb)
  }
}
