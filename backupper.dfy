/**
 * The older backup engine (busker/file/backup/backupper.py): the record of a
 * file as a dictionary of derived fields, reconciliation of the destination
 * folder, and copying with compounding name suffixes.
 *
 * Its helpers live in busker/file/utils.py and busker/file/sql.py, which are
 * not part of this model: file typing, stat, md5 and the EXIF capture
 * string are parameters, the traversal arrives as batches of entries, and
 * the catalog's same-file lookup is an abstract relation.
 */
module Backupper {
  import opened Results
  import opened PyText
  import opened Clock
  import opened Seqs
  import opened FileInfos
  import Organizer

  /** What `os.path.getsize`, `getctime` and `getmtime` report for a full path. */
  datatype FileStat = FileStat(size: nat, createdAt: DateTime, modifiedAt: DateTime)

  /** The platform and helper functions the engine calls, keyed by file name or full path. */
  datatype Toolkit = Toolkit(
    sep: char,
    fileType: string -> FileType,
    stat: string -> FileStat,
    md5: string -> string,
    captureString: string -> Option<string>)

  /** The `file_info` dictionary of one file. */
  datatype BackupInfo = BackupInfo(
    path: string,
    name: string,
    size: nat,
    fileType: FileType,
    createdAt: DateTime,
    modifiedAt: DateTime,
    md5: string,
    relativePath: string,
    originalDatetime: Option<string>)

  /** Python truthiness of an optional string: present and non-empty. */
  predicate Truthy(s: Option<string>)
  {
    s.Some? && s.value != []
  }

  /** The partition read off a capture string: its first seven characters with every `:` turned into the separator. */
  function CapturePartition(s: string, sep: char): string
  {
    ReplaceAll(s[..if |s| < 7 then |s| else 7], ":", [sep])
  }

  /**
   * `get_file_info(file_path, file_name)`: size, type, times and md5 of the
   * file; the partition is the year and month of the modification time,
   * unless the file is an image with a non-empty capture string, whose
   * partition then comes from that string.
   */
  function GetFileInfo(path: string, name: string, kit: Toolkit): BackupInfo
  {
    var fullPath := Join(path, name, kit.sep);
    var fileType := kit.fileType(name);
    var st := kit.stat(fullPath);
    var info := BackupInfo(path, name, st.size, fileType, st.createdAt, st.modifiedAt, kit.md5(fullPath),
                           Partition(st.modifiedAt, kit.sep), None);
    var capture := kit.captureString(fullPath);
    if fileType == Image && Truthy(capture) then
      info.(originalDatetime := capture, relativePath := CapturePartition(capture.value, kit.sep))
    else
      info
  }

  /**
   * Without an image capture string the partition is the modification
   * month, and the original datetime stays None; non-images never get one.
   */
  lemma GetFileInfoDefault(path: string, name: string, kit: Toolkit)
    ensures var fullPath := Join(path, name, kit.sep);
      var info := GetFileInfo(path, name, kit);
      && (info.originalDatetime.Some? <==> kit.fileType(name) == Image && Truthy(kit.captureString(fullPath)))
      && (info.originalDatetime.None? ==> info.relativePath == Partition(kit.stat(fullPath).modifiedAt, kit.sep))
      && info.path == path && info.name == name && info.md5 == kit.md5(fullPath)
  {
  }

  /** The first seven characters of an EXIF capture string are the year, `:` and the month. */
  lemma ExifPrefix(dt: DateTime)
    requires ValidDateTime(dt)
    ensures |ExifString(dt)| >= 7
    ensures ExifString(dt)[..7] == ZFill(dt.year, 4) + ":" + ZFill(dt.month, 2)
  {
    ExifDateFields(dt);
    var date := Triple(ZFill(dt.year, 4), ':', ZFill(dt.month, 2), ':', ZFill(dt.day, 2));
    assert ExifString(dt)[..7] == date[..7];
    assert date[..7] == date[0..4] + [date[4]] + date[5..7];
    assert date[0..4] == ZFill(dt.year, 4) && date[5..7] == ZFill(dt.month, 2);
  }

  /**
   * For the EXIF text of a timestamp, the capture partition is the same
   * year/month partition the photo engine derives from the parsed time.
   */
  lemma CapturePartitionOfExif(dt: DateTime, sep: char)
    requires ValidDateTime(dt)
    ensures CapturePartition(ExifString(dt), sep) == Partition(dt, sep)
  {
    var s := ExifString(dt);
    ExifDateFields(dt);
    ExifPrefix(dt);
    var y, m := ZFill(dt.year, 4), ZFill(dt.month, 2);
    var prefix := y + ":" + m;
    assert CapturePartition(s, sep) == ReplaceAll(prefix, [':'], [sep]);
    ReplaceCharPointwise(prefix, ':', sep);
    var r := ReplaceAll(prefix, [':'], [sep]);
    forall i | 0 <= i < 7
      ensures r[i] == Partition(dt, sep)[i]
    {
      if i < 4 {
        assert prefix[i] == y[i] && IsDigit(y[i]);
      } else if i > 4 {
        assert prefix[i] == m[i - 5] && IsDigit(m[i - 5]);
      }
    }
  }

  /** The capture string of the repository's sample photo lands in the April 2019 partition. */
  lemma SampleCapturePartition(sep: char)
    ensures CapturePartition("2019:04:17 11:44:37", sep) == "2019" + [sep] + "04"
  {
    SampleExifString();
    CapturePartitionOfExif(DateTime(2019, 4, 17, 11, 44, 37, 0), sep);
    SampleYear();
    SampleTwoDigitFields();
  }

  // ---------------------------------------------------------------------
  // The catalog
  // ---------------------------------------------------------------------

  predicate SameKey(a: BackupInfo, b: BackupInfo)
  {
    a.relativePath == b.relativePath && a.name == b.name
  }

  /** No two rows sit at the same destination folder and name. */
  ghost predicate KeyUnique(rows: seq<BackupInfo>)
  {
    forall i, j :: 0 <= i < j < |rows| ==> !SameKey(rows[i], rows[j])
  }

  ghost predicate HasKey(rows: seq<BackupInfo>, relativePath: string, name: string)
  {
    exists x :: x in rows && x.relativePath == relativePath && x.name == name
  }

  /** The rows at a destination folder and name, in table order. */
  function SelectByKey(rows: seq<BackupInfo>, relativePath: string, name: string): (r: seq<BackupInfo>)
    ensures forall x :: x in r <==> x in rows && x.relativePath == relativePath && x.name == name
    ensures r == [] <==> !HasKey(rows, relativePath, name)
  {
    if rows == [] then []
    else
      var last := rows[|rows| - 1];
      var init := SelectByKey(rows[..|rows| - 1], relativePath, name);
      assert forall x :: x in rows <==> x in rows[..|rows| - 1] || x == last;
      if last.relativePath == relativePath && last.name == name then init + [last] else init
  }

  /** With one row per place, at most one row sits at a destination folder and name. */
  lemma {:induction false} AtMostOneAtKey(rows: seq<BackupInfo>, relativePath: string, name: string)
    ensures KeyUnique(rows) ==> |SelectByKey(rows, relativePath, name)| <= 1
  {
    if rows != [] && KeyUnique(rows) {
      var init := rows[..|rows| - 1];
      var last := rows[|rows| - 1];
      AtMostOneAtKey(init, relativePath, name);
      if last.relativePath == relativePath && last.name == name {
        forall x | x in init
          ensures !(x.relativePath == relativePath && x.name == name)
        {
          var i :| 0 <= i < |init| && init[i] == x;
          assert !SameKey(rows[i], rows[|rows| - 1]);
        }
      }
    }
  }

  /** The first row the relation calls the same file as fi. */
  function FirstSame(rows: seq<BackupInfo>, fi: BackupInfo, same: (BackupInfo, BackupInfo) -> bool): (r: Option<BackupInfo>)
    ensures r.Some? ==> r.value in rows && same(r.value, fi)
    ensures r.None? <==> forall x :: x in rows ==> !same(x, fi)
  {
    if rows == [] then None
    else if same(rows[0], fi) then Some(rows[0])
    else
      assert forall x :: x in rows <==> x == rows[0] || x in rows[1..];
      FirstSame(rows[1..], fi, same)
  }

  /** Appending a row at a free place keeps places unique. */
  lemma AppendFreeKeepsKeyUnique(rows: seq<BackupInfo>, fi: BackupInfo)
    requires KeyUnique(rows) && !HasKey(rows, fi.relativePath, fi.name)
    ensures KeyUnique(rows + [fi])
  {
    var rs := rows + [fi];
    forall i, j | 0 <= i < j < |rs|
      ensures !SameKey(rs[i], rs[j])
    {
      if j == |rows| {
        assert rs[i] in rows;
      }
    }
  }

  /** The backup catalog, as far as the engine's calls show it. */
  class BackupCatalog {
    var rows: seq<BackupInfo>
    var committed: seq<BackupInfo>
    var commits: nat
    /** The same-file relation of `get_same_file`. */
    const same: (BackupInfo, BackupInfo) -> bool

    /** The engine keeps at most one row per destination folder and name. */
    ghost predicate Valid()
      reads this
    {
      KeyUnique(rows)
    }

    constructor (same: (BackupInfo, BackupInfo) -> bool)
      ensures Valid()
      ensures rows == [] && committed == [] && commits == 0 && this.same == same
    {
      rows := [];
      committed := [];
      commits := 0;
      this.same := same;
    }

    /** `get_count`. */
    function Count(): (n: nat)
      reads this
      ensures n == |rows|
    {
      |rows|
    }

    /** `get_file_by_relative_path_name`: the rows at that folder and name, or []. */
    function FindByRelativePathName(relativePath: string, name: string): (r: seq<BackupInfo>)
      reads this
      ensures forall x :: x in r <==> x in rows && x.relativePath == relativePath && x.name == name
      ensures r == [] <==> !HasKey(rows, relativePath, name)
      ensures Valid() ==> |r| <= 1
    {
      AtMostOneAtKey(rows, relativePath, name);
      SelectByKey(rows, relativePath, name)
    }

    /** `get_same_file`: a row the relation calls the same file, or None. */
    function FindSame(fi: BackupInfo): (r: Option<BackupInfo>)
      reads this
      ensures r.Some? ==> r.value in rows && same(r.value, fi)
      ensures r.None? <==> forall x :: x in rows ==> !same(x, fi)
    {
      FirstSame(rows, fi, same)
    }

    /** `register_file_info`: the record becomes the last row. */
    method Register(fi: BackupInfo)
      modifies this
      ensures rows == old(rows) + [fi] && Count() == old(Count()) + 1
      ensures committed == old(committed) && commits == old(commits)
    {
      rows := rows + [fi];
    }

    method Commit()
      modifies this
      ensures committed == rows && commits == old(commits) + 1 && rows == old(rows)
    {
      committed := rows;
      commits := commits + 1;
    }
  }

  // ---------------------------------------------------------------------
  // Compounding names
  // ---------------------------------------------------------------------

  /** One retry: the current name's stem, `_`, the count padded to two digits, and its extension. */
  function Suffixed(name: string, count: nat, sep: char): string
  {
    var parts := SplitExt(name, sep);
    parts.0 + "_" + ZFill(count, 2) + parts.1
  }

  lemma SuffixedLonger(name: string, count: nat, sep: char)
    ensures |Suffixed(name, count, sep)| >= |name| + 3
  {
    var parts := SplitExt(name, sep);
    assert |parts.0| + |parts.1| == |name|;
  }

  /** The name after `count` retries, each splitting the previous candidate. */
  function Compounded(name: string, count: nat, sep: char): string
  {
    if count == 0 then name else Suffixed(Compounded(name, count - 1, sep), count, sep)
  }

  /** Every retry makes the name at least three characters longer. */
  lemma {:induction false} CompoundedGrows(name: string, count: nat, sep: char)
    ensures |Compounded(name, count, sep)| >= |name| + 3 * count
  {
    if count > 0 {
      CompoundedGrows(name, count - 1, sep);
      SuffixedLonger(Compounded(name, count - 1, sep), count, sep);
    }
  }

  /** Longer-lived collisions compound: `a.jpg`, then `a_01.jpg`, then `a_01_02.jpg`. */
  lemma SampleCompounding(sep: char)
    requires sep != '.' && sep != '_' && !IsDigit(sep) && sep != 'a' && sep != 'j' && sep != 'p' && sep != 'g'
    ensures Compounded("a.jpg", 1, sep) == "a_01.jpg"
    ensures Compounded("a.jpg", 2, sep) == "a_01_02.jpg"
  {
    CompoundedTwice("a", ".jpg", sep);
    SampleRetryNames();
  }

  /** The pieces of the sample names. */
  lemma SampleRetryNames()
    ensures "a" + ".jpg" == "a.jpg"
    ensures "a" + "_" + ZFill(1, 2) + ".jpg" == "a_01.jpg"
    ensures "a" + "_" + ZFill(1, 2) + "_" + ZFill(2, 2) + ".jpg" == "a_01_02.jpg"
  {
    assert ZFill(1, 2) == "01" && ZFill(2, 2) == "02";
    assert "a" + "_" == "a_";
    assert "a_" + "01" == "a_01";
    assert "a_01" + "_" == "a_01_";
    assert "a_01_" + "02" == "a_01_02";
  }

  /** The first two retries of a name whose extension is its only dot: each suffix goes before the extension. */
  lemma CompoundedTwice(stem: string, ext: string, sep: char)
    requires |stem| > 0 && '.' !in stem && sep !in stem && sep != '.' && sep != '_' && !IsDigit(sep)
    requires |ext| > 0 && ext[0] == '.' && '.' !in ext[1..] && sep !in ext
    ensures Compounded(stem + ext, 1, sep) == stem + "_" + ZFill(1, 2) + ext
    ensures Compounded(stem + ext, 2, sep) == stem + "_" + ZFill(1, 2) + "_" + ZFill(2, 2) + ext
  {
    SuffixedOf(stem, ext, 1, sep);
    var once := stem + "_" + ZFill(1, 2);
    assert '.' !in ZFill(1, 2) && sep !in ZFill(1, 2);
    SuffixedOf(once, ext, 2, sep);
  }

  /** A retry of a name whose extension is its only dot puts the suffix before the extension. */
  lemma SuffixedOf(stem: string, ext: string, count: nat, sep: char)
    requires |stem| > 0 && '.' !in stem && sep !in stem && sep != '.'
    requires |ext| > 0 && ext[0] == '.' && '.' !in ext[1..] && sep !in ext
    ensures Suffixed(stem + ext, count, sep) == stem + "_" + ZFill(count, 2) + ext
  {
    SplitSample(stem, ext, sep);
  }

  /** The photo engine would have tried `a_02.jpg` second; only the first retry agrees. */
  lemma EnginesDiffer(sep: char)
    requires sep != '.' && sep != '_' && !IsDigit(sep) && sep != 'a' && sep != 'j' && sep != 'p' && sep != 'g'
    ensures Organizer.Candidate("a.jpg", 1, sep) == Compounded("a.jpg", 1, sep)
    ensures Organizer.Candidate("a.jpg", 2, sep) != Compounded("a.jpg", 2, sep)
  {
    SampleCompounding(sep);
    assert Organizer.Candidate("a.jpg", 1, sep) == Suffixed("a.jpg", 1, sep);
    CompoundedGrows("a.jpg", 2, sep);
    Organizer.CandidateLength("a.jpg", 2, sep);
  }

  /**
   * `count` retries reach the first name free at the folder: that name has no
   * row there and every earlier one had.
   */
  ghost predicate FirstFree(rows: seq<BackupInfo>, relativePath: string, name: string, count: nat, sep: char)
  {
    && !HasKey(rows, relativePath, Compounded(name, count, sep))
    && Taken(rows, relativePath, name, count, sep)
  }

  /** The first `count` retries of the name all have a row at the folder. */
  ghost predicate Taken(rows: seq<BackupInfo>, relativePath: string, name: string, count: nat, sep: char)
  {
    forall j :: 0 <= j < count ==> HasKey(rows, relativePath, Compounded(name, j, sep))
  }

  /** There is only one first free name. */
  lemma FirstFreeUnique(rows: seq<BackupInfo>, relativePath: string, name: string, c1: nat, c2: nat, sep: char)
    requires FirstFree(rows, relativePath, name, c1, sep) && FirstFree(rows, relativePath, name, c2, sep)
    ensures c1 == c2
  {
  }

  /** The length of the longest name among the rows. */
  function LongestName(rows: seq<BackupInfo>): (n: nat)
    ensures forall x :: x in rows ==> |x.name| <= n
  {
    if rows == [] then 0
    else
      var rest := LongestName(rows[1..]);
      assert forall x :: x in rows ==> x == rows[0] || x in rows[1..];
      if |rows[0].name| > rest then |rows[0].name| else rest
  }

  /**
   * The collision loop of `copy_files`: retry with a compounded suffix until
   * no row sits at the folder under that name. It stops because each
   * rejected name is a row's name, so no longer than the longest one, and
   * each retry is at least three characters longer than the name it splits.
   */
  method ResolveCompounded(catalog: BackupCatalog, relativePath: string, name: string, sep: char)
    returns (fileName: string, count: nat)
    ensures fileName == Compounded(name, count, sep)
    ensures catalog.FindByRelativePathName(relativePath, fileName) == []
    ensures FirstFree(catalog.rows, relativePath, name, count, sep)
  {
    fileName, count := name, 0;
    while catalog.FindByRelativePathName(relativePath, fileName) != []
      invariant fileName == Compounded(name, count, sep)
      invariant Taken(catalog.rows, relativePath, name, count, sep)
      decreases LongestName(catalog.rows) - |fileName|
    {
      TakenMore(catalog.rows, relativePath, name, count, sep);
      SuffixedLonger(fileName, count + 1, sep);
      count := count + 1;
      fileName := Suffixed(fileName, count, sep);
    }
  }

  /** A retry found taken joins the taken ones, and is no longer than the longest name. */
  lemma TakenMore(rows: seq<BackupInfo>, relativePath: string, name: string, count: nat, sep: char)
    requires Taken(rows, relativePath, name, count, sep)
    requires HasKey(rows, relativePath, Compounded(name, count, sep))
    ensures Taken(rows, relativePath, name, count + 1, sep)
    ensures |Compounded(name, count, sep)| <= LongestName(rows)
  {
    var x :| x in rows && x.relativePath == relativePath && x.name == Compounded(name, count, sep);
  }

  // ---------------------------------------------------------------------
  // Copying
  // ---------------------------------------------------------------------

  /** The record of one walked file. */
  function InfoOf(e: Entry, kit: Toolkit): BackupInfo
  {
    GetFileInfo(e.dir, e.name, kit)
  }

  /** The destination folder of a record: its partition under the target path. */
  function TargetFolder(targetPath: string, info: BackupInfo, sep: char): string
  {
    Join(targetPath, info.relativePath, sep)
  }

  /** Some row is, by the catalog's relation, the same file as info. */
  ghost predicate HasSame(rows: seq<BackupInfo>, info: BackupInfo, same: (BackupInfo, BackupInfo) -> bool)
  {
    exists x :: x in rows && same(x, info)
  }

  /** Some row is info itself, up to the name it was stored under. */
  ghost predicate HasCopy(rows: seq<BackupInfo>, info: BackupInfo)
  {
    exists x :: x in rows && x == info.(name := x.name)
  }

  /** The catalog accounts for a source file: it holds the same file, or the file's own record. */
  ghost predicate Accounted(rows: seq<BackupInfo>, info: BackupInfo, same: (BackupInfo, BackupInfo) -> bool)
  {
    HasSame(rows, info, same) || HasCopy(rows, info)
  }

  lemma AccountedGrows(rows: seq<BackupInfo>, more: seq<BackupInfo>, info: BackupInfo,
                       same: (BackupInfo, BackupInfo) -> bool)
    requires rows <= more && Accounted(rows, info, same)
    ensures Accounted(more, info, same)
  {
    var x :| x in rows && (same(x, info) || x == info.(name := x.name));
    var i :| 0 <= i < |rows| && rows[i] == x;
    assert more[i] == x;
  }

  /**
   * The effect of copying one file the catalog did not know: its folder is
   * created, it is copied there under the first free compounded name, and
   * its record is registered under that name.
   */
  ghost predicate Stored(before: seq<BackupInfo>, after: seq<BackupInfo>, actions: seq<Organizer.Action>,
                         info: BackupInfo, targetPath: string, sep: char)
  {
    exists count: nat :: FirstFree(before, info.relativePath, info.name, count, sep) &&
      var fileName := Compounded(info.name, count, sep);
      var folder := TargetFolder(targetPath, info, sep);
      && actions == [Organizer.MakeDirs(folder), Organizer.Copy(Join(info.path, info.name, sep), Join(folder, fileName, sep))]
      && after == before + [info.(name := fileName)]
  }

  /**
   * The loop body of `copy_files` for one file: nothing happens when the
   * catalog holds the same file; otherwise it is copied and registered.
   */
  method CopyFile(catalog: BackupCatalog, e: Entry, targetPath: string, kit: Toolkit)
    returns (actions: seq<Organizer.Action>)
    requires catalog.Valid()
    modifies catalog
    ensures catalog.Valid()
    ensures catalog.committed == old(catalog.committed) && catalog.commits == old(catalog.commits)
    ensures HasSame(old(catalog.rows), InfoOf(e, kit), catalog.same) ==>
      actions == [] && catalog.rows == old(catalog.rows)
    ensures !HasSame(old(catalog.rows), InfoOf(e, kit), catalog.same) ==>
      Stored(old(catalog.rows), catalog.rows, actions, InfoOf(e, kit), targetPath, kit.sep)
    ensures !HasSame(old(catalog.rows), InfoOf(e, kit), catalog.same) ==>
      StoredRow(old(catalog.rows), catalog.rows, actions, InfoOf(e, kit), targetPath, kit.sep)
  {
    var currentFile := Join(e.dir, e.name, kit.sep);
    var info := GetFileInfo(e.dir, e.name, kit);
    actions := [];
    var existing := catalog.FindSame(info);
    if existing.Some? {
      return;
    }
    var targetFolder := Join(targetPath, info.relativePath, kit.sep);
    var fileName, count := ResolveCompounded(catalog, info.relativePath, info.name, kit.sep);
    actions := [Organizer.MakeDirs(targetFolder), Organizer.Copy(currentFile, Join(targetFolder, fileName, kit.sep))];
    AppendFreeKeepsKeyUnique(catalog.rows, info.(name := fileName));
    ghost var before := catalog.rows;
    catalog.Register(info.(name := fileName));
    StoredMatches(before, catalog.rows, actions, info, targetPath, kit.sep);
  }

  /**
   * The actions of a run line up with the rows it added: for each new row,
   * its folder is created and a file is copied to that folder under the
   * row's name.
   */
  ghost predicate Matches(actions: seq<Organizer.Action>, added: seq<BackupInfo>, targetPath: string, sep: char)
  {
    && |actions| == 2 * |added|
    && forall k :: 0 <= k < |added| ==>
      && actions[2 * k] == Organizer.MakeDirs(TargetFolder(targetPath, added[k], sep))
      && actions[2 * k + 1].Copy?
      && actions[2 * k + 1].target == Join(TargetFolder(targetPath, added[k], sep), added[k].name, sep)
  }

  lemma MatchesAppend(a1: seq<Organizer.Action>, r1: seq<BackupInfo>, a2: seq<Organizer.Action>, r2: seq<BackupInfo>,
                      targetPath: string, sep: char)
    requires Matches(a1, r1, targetPath, sep) && Matches(a2, r2, targetPath, sep)
    ensures Matches(a1 + a2, r1 + r2, targetPath, sep)
  {
    var a, r := a1 + a2, r1 + r2;
    forall k | 0 <= k < |r|
      ensures a[2 * k] == Organizer.MakeDirs(TargetFolder(targetPath, r[k], sep))
      ensures a[2 * k + 1].Copy? && a[2 * k + 1].target == Join(TargetFolder(targetPath, r[k], sep), r[k].name, sep)
    {
      if k < |r1| {
        assert r[k] == r1[k] && a[2 * k] == a1[2 * k] && a[2 * k + 1] == a1[2 * k + 1];
      } else {
        var k2 := k - |r1|;
        assert r[k] == r2[k2] && a[2 * k] == a2[2 * k2] && a[2 * k + 1] == a2[2 * k2 + 1];
      }
    }
  }

  /** One more row, matched by the actions, that is the file's record up to the name. */
  ghost predicate StoredRow(before: seq<BackupInfo>, after: seq<BackupInfo>, actions: seq<Organizer.Action>,
                            info: BackupInfo, targetPath: string, sep: char)
  {
    && before <= after && |after| == |before| + 1
    && Matches(actions, after[|before|..], targetPath, sep)
    && HasCopy(after, info)
  }

  /** One stored file adds one matching row, which is its record up to the name. */
  lemma StoredMatches(before: seq<BackupInfo>, after: seq<BackupInfo>, actions: seq<Organizer.Action>,
                      info: BackupInfo, targetPath: string, sep: char)
    requires Stored(before, after, actions, info, targetPath, sep)
    ensures StoredRow(before, after, actions, info, targetPath, sep)
  {
    var count: nat :| FirstFree(before, info.relativePath, info.name, count, sep) &&
      var fileName := Compounded(info.name, count, sep);
      var folder := TargetFolder(targetPath, info, sep);
      && actions == [Organizer.MakeDirs(folder), Organizer.Copy(Join(info.path, info.name, sep), Join(folder, fileName, sep))]
      && after == before + [info.(name := fileName)];
    assert after[|before|..] == [after[|before|]];
    assert after[|before|] in after;
  }

  /** One turn of copying: a file the catalog held nothing the same as is stored as `Stored` says. */
  ghost predicate StoreTurn(before: seq<BackupInfo>, after: seq<BackupInfo>, actions: seq<Organizer.Action>,
                            info: BackupInfo, targetPath: string, sep: char, same: (BackupInfo, BackupInfo) -> bool)
  {
    !HasSame(before, info, same) && Stored(before, after, actions, info, targetPath, sep)
  }

  /** The last of the rows `added` to `rows0`, with the last two actions, is the stored copy of info. */
  ghost predicate StoredLast(rows0: seq<BackupInfo>, added: seq<BackupInfo>, actions: seq<Organizer.Action>,
                             info: BackupInfo, targetPath: string, sep: char, same: (BackupInfo, BackupInfo) -> bool)
  {
    && added != [] && |actions| >= 2
    && StoreTurn(rows0 + added[..|added| - 1], rows0 + added, actions[|actions| - 2..], info, targetPath, sep, same)
  }

  /**
   * The rows and actions that copying the files `infos` in order adds to
   * `rows0`: a file the rows hold the same of by its turn adds nothing, and
   * any other is stored as `Stored` says, against the rows as they stand at
   * its turn.
   */
  ghost predicate Copies(rows0: seq<BackupInfo>, infos: seq<BackupInfo>, added: seq<BackupInfo>,
                         actions: seq<Organizer.Action>, targetPath: string, sep: char,
                         same: (BackupInfo, BackupInfo) -> bool)
    decreases |infos|
  {
    if infos == [] then added == [] && actions == []
    else
      var init, info := infos[..|infos| - 1], infos[|infos| - 1];
      || (HasSame(rows0 + added, info, same) && Copies(rows0, init, added, actions, targetPath, sep, same))
      || (&& StoredLast(rows0, added, actions, info, targetPath, sep, same)
          && Copies(rows0, init, added[..|added| - 1], actions[..|actions| - 2], targetPath, sep, same))
  }

  /** A file stored after the rows `before` is the last copy of the rows it leaves. */
  lemma StoredLastOf(rows0: seq<BackupInfo>, before: seq<BackupInfo>, after: seq<BackupInfo>,
                     done: seq<Organizer.Action>, more: seq<Organizer.Action>, info: BackupInfo,
                     targetPath: string, sep: char, same: (BackupInfo, BackupInfo) -> bool)
    requires rows0 <= before && !HasSame(before, info, same)
    requires Stored(before, after, more, info, targetPath, sep)
    ensures rows0 <= after
    ensures StoredLast(rows0, after[|rows0|..], done + more, info, targetPath, sep, same)
    ensures after[|rows0|..][..|after[|rows0|..]| - 1] == before[|rows0|..]
    ensures (done + more)[..|done + more| - 2] == done
  {
    var count: nat :| FirstFree(before, info.relativePath, info.name, count, sep) &&
      var fileName := Compounded(info.name, count, sep);
      var folder := TargetFolder(targetPath, info, sep);
      && more == [Organizer.MakeDirs(folder), Organizer.Copy(Join(info.path, info.name, sep), Join(folder, fileName, sep))]
      && after == before + [info.(name := fileName)];
    var added := after[|rows0|..];
    assert added[..|added| - 1] == before[|rows0|..];
    assert rows0 + added[..|added| - 1] == before && rows0 + added == after;
    assert (done + more)[|done + more| - 2..] == more && (done + more)[..|done + more| - 2] == done;
  }

  /** `CopyFile` on the next file extends what copying the files before it added. */
  lemma CopiesNext(rows0: seq<BackupInfo>, infos: seq<BackupInfo>, i: nat, before: seq<BackupInfo>,
                   after: seq<BackupInfo>, done: seq<Organizer.Action>, more: seq<Organizer.Action>,
                   targetPath: string, sep: char, same: (BackupInfo, BackupInfo) -> bool)
    requires i < |infos| && rows0 <= before
    requires Copies(rows0, infos[..i], before[|rows0|..], done, targetPath, sep, same)
    requires HasSame(before, infos[i], same) ==> more == [] && after == before
    requires !HasSame(before, infos[i], same) ==> Stored(before, after, more, infos[i], targetPath, sep)
    ensures rows0 <= after
    ensures Copies(rows0, infos[..i + 1], after[|rows0|..], done + more, targetPath, sep, same)
  {
    assert infos[..i + 1][..i] == infos[..i];
    if HasSame(before, infos[i], same) {
      assert done + more == done;
      assert rows0 + before[|rows0|..] == before;
    } else {
      StoredLastOf(rows0, before, after, done, more, infos[i], targetPath, sep, same);
    }
  }

  /** A copy at the end of a second run of rows is the last copy of both runs together. */
  lemma StoredLastShift(rows0: seq<BackupInfo>, a1: seq<BackupInfo>, a2: seq<BackupInfo>,
                        acts1: seq<Organizer.Action>, acts2: seq<Organizer.Action>, info: BackupInfo,
                        targetPath: string, sep: char, same: (BackupInfo, BackupInfo) -> bool)
    requires StoredLast(rows0 + a1, a2, acts2, info, targetPath, sep, same)
    ensures (a1 + a2)[..|a1 + a2| - 1] == a1 + a2[..|a2| - 1]
    ensures (acts1 + acts2)[..|acts1 + acts2| - 2] == acts1 + acts2[..|acts2| - 2]
    ensures StoredLast(rows0, a1 + a2, acts1 + acts2, info, targetPath, sep, same)
  {
    var b2 := a2[..|a2| - 1];
    assert (a1 + a2)[..|a1 + a2| - 1] == a1 + b2;
    Associative(rows0, a1, b2);
    Associative(rows0, a1, a2);
    assert (acts1 + acts2)[|acts1 + acts2| - 2..] == acts2[|acts2| - 2..];
    assert (acts1 + acts2)[..|acts1 + acts2| - 2] == acts1 + acts2[..|acts2| - 2];
  }

  /** What copying two runs of files adds, one after the other. */
  lemma {:induction false} CopiesAppend(rows0: seq<BackupInfo>, xs: seq<BackupInfo>, ys: seq<BackupInfo>,
                                        a1: seq<BackupInfo>, a2: seq<BackupInfo>,
                                        acts1: seq<Organizer.Action>, acts2: seq<Organizer.Action>,
                                        targetPath: string, sep: char, same: (BackupInfo, BackupInfo) -> bool)
    requires Copies(rows0, xs, a1, acts1, targetPath, sep, same)
    requires Copies(rows0 + a1, ys, a2, acts2, targetPath, sep, same)
    ensures Copies(rows0, xs + ys, a1 + a2, acts1 + acts2, targetPath, sep, same)
    decreases |ys|
  {
    if ys == [] {
      assert xs + ys == xs && a1 + a2 == a1 && acts1 + acts2 == acts1;
    } else {
      var init, info := ys[..|ys| - 1], ys[|ys| - 1];
      assert (xs + ys)[..|xs + ys| - 1] == xs + init && (xs + ys)[|xs + ys| - 1] == info;
      if HasSame((rows0 + a1) + a2, info, same) && Copies(rows0 + a1, init, a2, acts2, targetPath, sep, same) {
        assert (rows0 + a1) + a2 == rows0 + (a1 + a2);
        CopiesAppend(rows0, xs, init, a1, a2, acts1, acts2, targetPath, sep, same);
      } else {
        CopiesAppend(rows0, xs, init, a1, a2[..|a2| - 1], acts1, acts2[..|acts2| - 2], targetPath, sep, same);
        StoredLastShift(rows0, a1, a2, acts1, acts2, info, targetPath, sep, same);
      }
    }
  }

  /** The records of two runs of files are the records of each, one after the other. */
  lemma InfosOfAppend(xs: seq<Entry>, ys: seq<Entry>, kit: Toolkit)
    ensures InfosOf(xs + ys, kit) == InfosOf(xs, kit) + InfosOf(ys, kit)
  {
  }

  /**
   * What the first i files of a batch have done: the rows only grew, every
   * file is accounted for, nothing happened when the catalog already held
   * every file, the actions line up with the added rows, and rows and
   * actions are what copying those files in order adds.
   */
  ghost predicate CopyProgress(rows0: seq<BackupInfo>, rows: seq<BackupInfo>, actions: seq<Organizer.Action>,
                               infos: seq<BackupInfo>, i: nat, known: bool, targetPath: string, sep: char,
                               same: (BackupInfo, BackupInfo) -> bool)
    requires i <= |infos|
  {
    && rows0 <= rows
    && (forall k :: 0 <= k < i ==> Accounted(rows, infos[k], same))
    && (known ==> rows == rows0 && actions == [])
    && Matches(actions, rows[|rows0|..], targetPath, sep)
    && Copies(rows0, infos[..i], rows[|rows0|..], actions, targetPath, sep, same)
  }

  /** One more file handled by `CopyFile` keeps the progress of its batch. */
  lemma CopyStep(rows0: seq<BackupInfo>, before: seq<BackupInfo>, after: seq<BackupInfo>,
                 done: seq<Organizer.Action>, more: seq<Organizer.Action>, infos: seq<BackupInfo>, i: nat,
                 known: bool, targetPath: string, sep: char, same: (BackupInfo, BackupInfo) -> bool)
    requires i < |infos|
    requires CopyProgress(rows0, before, done, infos, i, known, targetPath, sep, same)
    requires known ==> HasSame(rows0, infos[i], same)
    requires HasSame(before, infos[i], same) ==> more == [] && after == before
    requires !HasSame(before, infos[i], same) ==> StoredRow(before, after, more, infos[i], targetPath, sep)
    requires !HasSame(before, infos[i], same) ==> Stored(before, after, more, infos[i], targetPath, sep)
    ensures CopyProgress(rows0, after, done + more, infos, i + 1, known, targetPath, sep, same)
  {
    CopiesNext(rows0, infos, i, before, after, done, more, targetPath, sep, same);
    StoredRowMatches(rows0, before, after, done, more, known, infos[i], targetPath, sep, same);
    StoredRowCovers(infos, i, before, after, more, targetPath, sep, same);
  }

  /** The rows and actions of a batch after one more file. */
  lemma StoredRowMatches(rows0: seq<BackupInfo>, before: seq<BackupInfo>, after: seq<BackupInfo>,
                         done: seq<Organizer.Action>, more: seq<Organizer.Action>, known: bool, info: BackupInfo,
                         targetPath: string, sep: char, same: (BackupInfo, BackupInfo) -> bool)
    requires rows0 <= before && (known ==> before == rows0 && done == [])
    requires Matches(done, before[|rows0|..], targetPath, sep)
    requires known ==> HasSame(rows0, info, same)
    requires HasSame(before, info, same) ==> more == [] && after == before
    requires !HasSame(before, info, same) ==> StoredRow(before, after, more, info, targetPath, sep)
    ensures rows0 <= after && (known ==> after == rows0 && done + more == [])
    ensures Matches(done + more, after[|rows0|..], targetPath, sep)
  {
    if HasSame(before, info, same) {
      assert done + more == done;
    } else {
      GainedSplit(rows0, before, after);
      MatchesAppend(done, before[|rows0|..], more, after[|before|..], targetPath, sep);
    }
  }

  /** The files of a batch that are accounted for, after one more file. */
  lemma StoredRowCovers(infos: seq<BackupInfo>, i: nat, before: seq<BackupInfo>, after: seq<BackupInfo>,
                        more: seq<Organizer.Action>, targetPath: string, sep: char,
                        same: (BackupInfo, BackupInfo) -> bool)
    requires i < |infos|
    requires forall k :: 0 <= k < i ==> Accounted(before, infos[k], same)
    requires HasSame(before, infos[i], same) ==> after == before
    requires !HasSame(before, infos[i], same) ==> StoredRow(before, after, more, infos[i], targetPath, sep)
    ensures forall k :: 0 <= k < i + 1 ==> Accounted(after, infos[k], same)
  {
    forall k | 0 <= k < i
      ensures Accounted(after, infos[k], same)
    {
      AccountedGrows(before, after, infos[k], same);
    }
  }

  /** The records of a batch of walked files. */
  function InfosOf(entries: seq<Entry>, kit: Toolkit): (r: seq<BackupInfo>)
    ensures |r| == |entries| && forall k :: 0 <= k < |entries| ==> r[k] == InfoOf(entries[k], kit)
  {
    seq(|entries|, k requires 0 <= k < |entries| => InfoOf(entries[k], kit))
  }

  /**
   * One batch of `copy_files` followed by its commit: every file the
   * catalog does not hold the same of is copied and registered.
   */
  method CopyBatch(catalog: BackupCatalog, entries: seq<Entry>, targetPath: string, kit: Toolkit)
    returns (actions: seq<Organizer.Action>)
    requires catalog.Valid()
    modifies catalog
    ensures catalog.Valid() && old(catalog.rows) <= catalog.rows
    ensures forall k :: 0 <= k < |entries| ==> Accounted(catalog.rows, InfoOf(entries[k], kit), catalog.same)
    ensures (forall k :: 0 <= k < |entries| ==> HasSame(old(catalog.rows), InfoOf(entries[k], kit), catalog.same)) ==>
      catalog.rows == old(catalog.rows) && actions == []
    ensures Matches(actions, catalog.rows[|old(catalog.rows)|..], targetPath, kit.sep)
    ensures Copies(old(catalog.rows), InfosOf(entries, kit), catalog.rows[|old(catalog.rows)|..], actions,
                   targetPath, kit.sep, catalog.same)
    ensures catalog.committed == catalog.rows && catalog.commits == old(catalog.commits) + 1
  {
    ghost var rows0 := catalog.rows;
    ghost var infos := InfosOf(entries, kit);
    ghost var known := forall k :: 0 <= k < |entries| ==> HasSame(rows0, InfoOf(entries[k], kit), catalog.same);
    actions := [];
    for i := 0 to |entries|
      invariant catalog.Valid()
      invariant CopyProgress(rows0, catalog.rows, actions, infos, i, known, targetPath, kit.sep, catalog.same)
      invariant catalog.commits == old(catalog.commits)
    {
      ghost var before, done := catalog.rows, actions;
      var more := CopyFile(catalog, entries[i], targetPath, kit);
      actions := actions + more;
      CopyStep(rows0, before, catalog.rows, done, more, infos, i, known, targetPath, kit.sep, catalog.same);
    }
    assert infos[..|entries|] == infos;
    catalog.Commit();
  }

  /** What the batches handled so far have done, across the whole run. */
  ghost predicate RunProgress(rows0: seq<BackupInfo>, rows: seq<BackupInfo>, actions: seq<Organizer.Action>,
                              done: seq<Entry>, known: bool, targetPath: string, kit: Toolkit,
                              same: (BackupInfo, BackupInfo) -> bool)
  {
    && rows0 <= rows
    && (forall e :: e in done ==> Accounted(rows, InfoOf(e, kit), same))
    && (known ==> rows == rows0 && actions == [])
    && Matches(actions, rows[|rows0|..], targetPath, kit.sep)
    && Copies(rows0, InfosOf(done, kit), rows[|rows0|..], actions, targetPath, kit.sep, same)
  }

  /** After the last batch, the run's progress covers every file of the walk. */
  lemma RunDone(rows0: seq<BackupInfo>, rows: seq<BackupInfo>, actions: seq<Organizer.Action>,
                batches: seq<seq<Entry>>, known: bool, targetPath: string, kit: Toolkit,
                same: (BackupInfo, BackupInfo) -> bool)
    requires RunProgress(rows0, rows, actions, Flatten(batches[..|batches|]), known, targetPath, kit, same)
    ensures rows0 <= rows
    ensures forall e :: e in Flatten(batches) ==> Accounted(rows, InfoOf(e, kit), same)
    ensures known ==> rows == rows0 && actions == []
    ensures Matches(actions, rows[|rows0|..], targetPath, kit.sep)
    ensures Copies(rows0, InfosOf(Flatten(batches), kit), rows[|rows0|..], actions, targetPath, kit.sep, same)
  {
    FlattenTakeAll(batches);
  }

  /** One more batch handled by `CopyBatch` keeps the progress of the run. */
  lemma RunStep(rows0: seq<BackupInfo>, before: seq<BackupInfo>, after: seq<BackupInfo>,
                done: seq<Organizer.Action>, more: seq<Organizer.Action>, handled: seq<Entry>, batch: seq<Entry>,
                known: bool, targetPath: string, kit: Toolkit, same: (BackupInfo, BackupInfo) -> bool)
    requires RunProgress(rows0, before, done, handled, known, targetPath, kit, same)
    requires before <= after
    requires forall k :: 0 <= k < |batch| ==> Accounted(after, InfoOf(batch[k], kit), same)
    requires known ==> forall k :: 0 <= k < |batch| ==> HasSame(rows0, InfoOf(batch[k], kit), same)
    requires (forall k :: 0 <= k < |batch| ==> HasSame(before, InfoOf(batch[k], kit), same)) ==>
      after == before && more == []
    requires Matches(more, after[|before|..], targetPath, kit.sep)
    requires Copies(before, InfosOf(batch, kit), after[|before|..], more, targetPath, kit.sep, same)
    ensures RunProgress(rows0, after, done + more, handled + batch, known, targetPath, kit, same)
  {
    RunCopies(rows0, before, after, done, more, handled, batch, targetPath, kit, same);
    RunMatches(rows0, before, after, done, more, known, targetPath, kit.sep);
    RunCovers(before, after, handled, batch, kit, same);
  }

  /** What copying the files of the run adds, after one more batch. */
  lemma RunCopies(rows0: seq<BackupInfo>, before: seq<BackupInfo>, after: seq<BackupInfo>,
                  done: seq<Organizer.Action>, more: seq<Organizer.Action>, handled: seq<Entry>, batch: seq<Entry>,
                  targetPath: string, kit: Toolkit, same: (BackupInfo, BackupInfo) -> bool)
    requires rows0 <= before && before <= after
    requires Copies(rows0, InfosOf(handled, kit), before[|rows0|..], done, targetPath, kit.sep, same)
    requires Copies(before, InfosOf(batch, kit), after[|before|..], more, targetPath, kit.sep, same)
    ensures Copies(rows0, InfosOf(handled + batch, kit), after[|rows0|..], done + more, targetPath, kit.sep, same)
  {
    GainedSplit(rows0, before, after);
    assert rows0 + before[|rows0|..] == before;
    InfosOfAppend(handled, batch, kit);
    CopiesAppend(rows0, InfosOf(handled, kit), InfosOf(batch, kit), before[|rows0|..], after[|before|..],
                 done, more, targetPath, kit.sep, same);
  }

  /** The rows and actions of the run after one more batch. */
  lemma RunMatches(rows0: seq<BackupInfo>, before: seq<BackupInfo>, after: seq<BackupInfo>,
                   done: seq<Organizer.Action>, more: seq<Organizer.Action>, known: bool, targetPath: string, sep: char)
    requires rows0 <= before && before <= after && (known ==> before == rows0 && done == [])
    requires Matches(done, before[|rows0|..], targetPath, sep) && Matches(more, after[|before|..], targetPath, sep)
    requires known ==> after == before && more == []
    ensures known ==> after == rows0 && done + more == []
    ensures Matches(done + more, after[|rows0|..], targetPath, sep)
  {
    GainedSplit(rows0, before, after);
    MatchesAppend(done, before[|rows0|..], more, after[|before|..], targetPath, sep);
  }

  /** The files of the run that are accounted for, after one more batch. */
  lemma RunCovers(before: seq<BackupInfo>, after: seq<BackupInfo>, handled: seq<Entry>, batch: seq<Entry>,
                  kit: Toolkit, same: (BackupInfo, BackupInfo) -> bool)
    requires before <= after
    requires forall e :: e in handled ==> Accounted(before, InfoOf(e, kit), same)
    requires forall k :: 0 <= k < |batch| ==> Accounted(after, InfoOf(batch[k], kit), same)
    ensures forall e :: e in handled + batch ==> Accounted(after, InfoOf(e, kit), same)
  {
    forall e | e in handled + batch
      ensures Accounted(after, InfoOf(e, kit), same)
    {
      if e in handled {
        AccountedGrows(before, after, InfoOf(e, kit), same);
      } else {
        var k :| 0 <= k < |batch| && batch[k] == e;
      }
    }
  }

  /** `CopyFiles` handling batch `b`: the batch is copied and committed. */
  method CopyNextBatch(catalog: BackupCatalog, batches: seq<seq<Entry>>, b: nat, targetPath: string, kit: Toolkit,
                       ghost rows0: seq<BackupInfo>, ghost known: bool, done: seq<Organizer.Action>)
    returns (actions: seq<Organizer.Action>)
    requires catalog.Valid() && b < |batches|
    requires known ==> forall e :: e in Flatten(batches) ==> HasSame(rows0, InfoOf(e, kit), catalog.same)
    requires RunProgress(rows0, catalog.rows, done, Flatten(batches[..b]), known, targetPath, kit, catalog.same)
    modifies catalog
    ensures catalog.Valid()
    ensures RunProgress(rows0, catalog.rows, actions, Flatten(batches[..b + 1]), known, targetPath, kit, catalog.same)
    ensures catalog.committed == catalog.rows && catalog.commits == old(catalog.commits) + 1
  {
    var batch := batches[b];
    FlattenTakeMore(batches, b);
    PieceInFlatten(batches, b);
    ghost var before := catalog.rows;
    var more := CopyBatch(catalog, batch, targetPath, kit);
    actions := done + more;
    RunStep(rows0, before, catalog.rows, done, more, Flatten(batches[..b]), batch, known, targetPath, kit, catalog.same);
  }

  /**
   * `copy_files(source_path, target_path)` over the walk of the source in
   * batches: each batch is copied and then committed. Afterwards every
   * source file is accounted for, the rows only grew, the actions line up
   * with the new rows, and nothing happened when the catalog already held
   * every file.
   */
  method CopyFiles(catalog: BackupCatalog, batches: seq<seq<Entry>>, targetPath: string, kit: Toolkit)
    returns (actions: seq<Organizer.Action>)
    requires catalog.Valid()
    modifies catalog
    ensures catalog.Valid() && old(catalog.rows) <= catalog.rows
    ensures forall e :: e in Flatten(batches) ==> Accounted(catalog.rows, InfoOf(e, kit), catalog.same)
    ensures (forall e :: e in Flatten(batches) ==> HasSame(old(catalog.rows), InfoOf(e, kit), catalog.same)) ==>
      catalog.rows == old(catalog.rows) && actions == []
    ensures Matches(actions, catalog.rows[|old(catalog.rows)|..], targetPath, kit.sep)
    ensures Copies(old(catalog.rows), InfosOf(Flatten(batches), kit), catalog.rows[|old(catalog.rows)|..], actions,
                   targetPath, kit.sep, catalog.same)
    ensures catalog.commits == old(catalog.commits) + |batches|
    ensures catalog.committed == if batches == [] then old(catalog.committed) else catalog.rows
  {
    ghost var rows0 := catalog.rows;
    ghost var known := forall e :: e in Flatten(batches) ==> HasSame(rows0, InfoOf(e, kit), catalog.same);
    actions := [];
    for b := 0 to |batches|
      invariant catalog.Valid()
      invariant RunProgress(rows0, catalog.rows, actions, Flatten(batches[..b]), known, targetPath, kit, catalog.same)
      invariant catalog.commits == old(catalog.commits) + b
      invariant catalog.committed == if b == 0 then old(catalog.committed) else catalog.rows
    {
      actions := CopyNextBatch(catalog, batches, b, targetPath, kit, rows0, known, actions);
    }
    RunDone(rows0, catalog.rows, actions, batches, known, targetPath, kit, catalog.same);
  }

  // ---------------------------------------------------------------------
  // Reconciling the destination folder
  // ---------------------------------------------------------------------

  /**
   * The folder a destination file is filed under: its directory with every
   * occurrence of the target path and a separator removed. A file directly
   * in the target path keeps its whole directory, which has no such occurrence.
   */
  function RelativeOf(dir: string, targetPath: string, sep: char): string
  {
    ReplaceAll(dir, targetPath + [sep], "")
  }

  /** A directory below the target path is filed under the rest of its path, if that does not repeat the prefix. */
  lemma RelativeOfBelow(targetPath: string, rest: string, sep: char)
    requires !Occurs(rest, targetPath + [sep])
    ensures RelativeOf(targetPath + [sep] + rest, targetPath, sep) == rest
  {
    var pat := targetPath + [sep];
    assert (pat + rest)[..|pat|] == pat && (pat + rest)[|pat|..] == rest;
    ReplaceAbsent(rest, pat, "");
  }

  /** A file directly in the target path is filed under the target path itself, not under the empty folder. */
  lemma RelativeOfTarget(targetPath: string, sep: char)
    ensures RelativeOf(targetPath, targetPath, sep) == targetPath
  {
    ReplaceAbsent(targetPath, targetPath + [sep], "");
  }

  /** The catalog accounts for a destination file: a row sits at its folder and name, or holds the same file. */
  ghost predicate Reconciled(rows: seq<BackupInfo>, e: Entry, targetPath: string, kit: Toolkit,
                             same: (BackupInfo, BackupInfo) -> bool)
  {
    HasKey(rows, RelativeOf(e.dir, targetPath, kit.sep), e.name) || HasSame(rows, InfoOf(e, kit), same)
  }

  /** The row a destination file is registered as: its record, filed under its own folder. */
  function Adopted(e: Entry, targetPath: string, kit: Toolkit): BackupInfo
  {
    InfoOf(e, kit).(relativePath := RelativeOf(e.dir, targetPath, kit.sep))
  }

  lemma ReconciledGrows(rows: seq<BackupInfo>, more: seq<BackupInfo>, e: Entry, targetPath: string, kit: Toolkit,
                        same: (BackupInfo, BackupInfo) -> bool)
    requires rows <= more && Reconciled(rows, e, targetPath, kit, same)
    ensures Reconciled(more, e, targetPath, kit, same)
  {
    var x :| x in rows && ((x.relativePath == RelativeOf(e.dir, targetPath, kit.sep) && x.name == e.name)
                           || same(x, InfoOf(e, kit)));
    var i :| 0 <= i < |rows| && rows[i] == x;
    assert more[i] == x;
  }

  /**
   * The loop body of `inspect_collected_files` for one file: nothing
   * happens when a row sits at its folder and name or holds the same file;
   * otherwise its record is registered under its own folder.
   */
  method InspectFile(catalog: BackupCatalog, e: Entry, targetPath: string, kit: Toolkit)
    requires catalog.Valid()
    modifies catalog
    ensures catalog.Valid()
    ensures catalog.committed == old(catalog.committed) && catalog.commits == old(catalog.commits)
    ensures Reconciled(old(catalog.rows), e, targetPath, kit, catalog.same) ==> catalog.rows == old(catalog.rows)
    ensures !Reconciled(old(catalog.rows), e, targetPath, kit, catalog.same) ==>
      catalog.rows == old(catalog.rows) + [Adopted(e, targetPath, kit)]
  {
    var relativePath := ReplaceAll(e.dir, targetPath + [kit.sep], "");
    if catalog.FindByRelativePathName(relativePath, e.name) == [] {
      var info := GetFileInfo(e.dir, e.name, kit);
      var existing := catalog.FindSame(info);
      if existing.None? {
        AppendFreeKeepsKeyUnique(catalog.rows, info.(relativePath := relativePath));
        catalog.Register(info.(relativePath := relativePath));
      }
    }
  }

  /** A row is one of the files, registered under its own folder. */
  ghost predicate AdoptedFrom(r: BackupInfo, entries: seq<Entry>, targetPath: string, kit: Toolkit)
  {
    exists e :: e in entries && r == Adopted(e, targetPath, kit)
  }

  /**
   * What the first i files of a batch have done: the rows only grew, every
   * file is accounted for, nothing happened when all were already accounted
   * for, and each added row is an adopted file of the batch.
   */
  ghost predicate InspectProgress(rows0: seq<BackupInfo>, rows: seq<BackupInfo>, entries: seq<Entry>, i: nat,
                                  known: bool, targetPath: string, kit: Toolkit,
                                  same: (BackupInfo, BackupInfo) -> bool)
    requires i <= |entries|
  {
    && rows0 <= rows
    && (forall k :: 0 <= k < i ==> Reconciled(rows, entries[k], targetPath, kit, same))
    && (known ==> rows == rows0)
    && forall r :: r in rows[|rows0|..] ==> AdoptedFrom(r, entries, targetPath, kit)
  }

  /** One more file handled by `InspectFile` keeps the progress of its batch. */
  lemma InspectStep(rows0: seq<BackupInfo>, before: seq<BackupInfo>, after: seq<BackupInfo>, entries: seq<Entry>,
                    i: nat, known: bool, targetPath: string, kit: Toolkit, same: (BackupInfo, BackupInfo) -> bool)
    requires i < |entries|
    requires InspectProgress(rows0, before, entries, i, known, targetPath, kit, same)
    requires known ==> Reconciled(rows0, entries[i], targetPath, kit, same)
    requires Reconciled(before, entries[i], targetPath, kit, same) ==> after == before
    requires !Reconciled(before, entries[i], targetPath, kit, same) ==>
      after == before + [Adopted(entries[i], targetPath, kit)]
    ensures InspectProgress(rows0, after, entries, i + 1, known, targetPath, kit, same)
  {
    AdoptedStep(rows0, before, after, entries, i, known, targetPath, kit);
    ReconciledStep(before, after, entries, i, targetPath, kit, same);
  }

  /** The rows of a batch after one more file: at most that file's adopted row was added. */
  lemma AdoptedStep(rows0: seq<BackupInfo>, before: seq<BackupInfo>, after: seq<BackupInfo>, entries: seq<Entry>,
                    i: nat, known: bool, targetPath: string, kit: Toolkit)
    requires i < |entries| && rows0 <= before && (known ==> before == rows0)
    requires forall r :: r in before[|rows0|..] ==> AdoptedFrom(r, entries, targetPath, kit)
    requires after == before || after == before + [Adopted(entries[i], targetPath, kit)]
    requires known ==> after == before
    ensures rows0 <= after && (known ==> after == rows0)
    ensures forall r :: r in after[|rows0|..] ==> AdoptedFrom(r, entries, targetPath, kit)
  {
    if after != before {
      var row := Adopted(entries[i], targetPath, kit);
      assert after[|rows0|..] == before[|rows0|..] + [row];
      assert AdoptedFrom(row, entries, targetPath, kit);
    }
  }

  /** The files of a batch that are accounted for, after one more file. */
  lemma ReconciledStep(before: seq<BackupInfo>, after: seq<BackupInfo>, entries: seq<Entry>, i: nat,
                       targetPath: string, kit: Toolkit, same: (BackupInfo, BackupInfo) -> bool)
    requires i < |entries|
    requires forall k :: 0 <= k < i ==> Reconciled(before, entries[k], targetPath, kit, same)
    requires Reconciled(before, entries[i], targetPath, kit, same) ==> after == before
    requires !Reconciled(before, entries[i], targetPath, kit, same) ==>
      after == before + [Adopted(entries[i], targetPath, kit)]
    ensures forall k :: 0 <= k < i + 1 ==> Reconciled(after, entries[k], targetPath, kit, same)
  {
    var e := entries[i];
    if !Reconciled(before, e, targetPath, kit, same) {
      var row := after[|before|];
      assert row in after && row.relativePath == RelativeOf(e.dir, targetPath, kit.sep) && row.name == e.name;
    }
    forall k | 0 <= k < i
      ensures Reconciled(after, entries[k], targetPath, kit, same)
    {
      ReconciledGrows(before, after, entries[k], targetPath, kit, same);
    }
  }

  /** One batch of `inspect_collected_files`. */
  method InspectBatch(catalog: BackupCatalog, entries: seq<Entry>, targetPath: string, kit: Toolkit)
    requires catalog.Valid()
    modifies catalog
    ensures catalog.Valid()
    ensures catalog.committed == old(catalog.committed) && catalog.commits == old(catalog.commits)
    ensures InspectProgress(old(catalog.rows), catalog.rows, entries, |entries|,
                            forall k :: 0 <= k < |entries| ==> Reconciled(old(catalog.rows), entries[k], targetPath, kit, catalog.same),
                            targetPath, kit, catalog.same)
  {
    ghost var rows0 := catalog.rows;
    ghost var known := forall k :: 0 <= k < |entries| ==> Reconciled(rows0, entries[k], targetPath, kit, catalog.same);
    for i := 0 to |entries|
      invariant catalog.Valid()
      invariant InspectProgress(rows0, catalog.rows, entries, i, known, targetPath, kit, catalog.same)
      invariant catalog.committed == old(catalog.committed) && catalog.commits == old(catalog.commits)
    {
      ghost var before := catalog.rows;
      InspectFile(catalog, entries[i], targetPath, kit);
      InspectStep(rows0, before, catalog.rows, entries, i, known, targetPath, kit, catalog.same);
    }
  }

  /** `InspectCollectedFiles` handling batch `b`. */
  method InspectNextBatch(catalog: BackupCatalog, batches: seq<seq<Entry>>, b: nat, targetPath: string, kit: Toolkit,
                          ghost rows0: seq<BackupInfo>, ghost known: bool)
    requires catalog.Valid() && b < |batches|
    requires known ==> forall e :: e in Flatten(batches) ==> Reconciled(rows0, e, targetPath, kit, catalog.same)
    requires InspectRunProgress(rows0, catalog.rows, Flatten(batches[..b]), Flatten(batches), known, targetPath, kit,
                                catalog.same)
    modifies catalog
    ensures catalog.Valid()
    ensures catalog.committed == old(catalog.committed) && catalog.commits == old(catalog.commits)
    ensures InspectRunProgress(rows0, catalog.rows, Flatten(batches[..b + 1]), Flatten(batches), known, targetPath, kit,
                               catalog.same)
  {
    var batch := batches[b];
    FlattenTakeMore(batches, b);
    forall k | 0 <= k < |batch|
      ensures batch[k] in Flatten(batches)
    {
      InFlatten(batches, b, batch[k]);
    }
    ghost var before := catalog.rows;
    InspectBatch(catalog, batch, targetPath, kit);
    InspectRunStep(rows0, before, catalog.rows, Flatten(batches[..b]), batch, Flatten(batches), known, targetPath, kit,
                   catalog.same);
  }

  /**
   * `inspect_collected_files(target_path)` over the walk of the destination
   * in batches; nothing is committed here. Afterwards every destination file
   * is accounted for, the rows only grew, and each new row is one of those
   * files registered under its own folder.
   */
  method InspectCollectedFiles(catalog: BackupCatalog, batches: seq<seq<Entry>>, targetPath: string, kit: Toolkit)
    requires catalog.Valid()
    modifies catalog
    ensures catalog.Valid() && old(catalog.rows) <= catalog.rows
    ensures catalog.committed == old(catalog.committed) && catalog.commits == old(catalog.commits)
    ensures forall e :: e in Flatten(batches) ==> Reconciled(catalog.rows, e, targetPath, kit, catalog.same)
    ensures (forall e :: e in Flatten(batches) ==> Reconciled(old(catalog.rows), e, targetPath, kit, catalog.same)) ==>
      catalog.rows == old(catalog.rows)
    ensures forall r :: r in catalog.rows[|old(catalog.rows)|..] ==> AdoptedFrom(r, Flatten(batches), targetPath, kit)
  {
    ghost var all := Flatten(batches);
    ghost var rows0 := catalog.rows;
    ghost var known := forall e :: e in all ==> Reconciled(rows0, e, targetPath, kit, catalog.same);
    for b := 0 to |batches|
      invariant catalog.Valid()
      invariant catalog.committed == old(catalog.committed) && catalog.commits == old(catalog.commits)
      invariant InspectRunProgress(rows0, catalog.rows, Flatten(batches[..b]), all, known, targetPath, kit, catalog.same)
    {
      InspectNextBatch(catalog, batches, b, targetPath, kit, rows0, known);
    }
    FlattenTakeAll(batches);
  }

  /**
   * What the batches handled so far have done, across the whole pass: the
   * rows only grew, every handled file is accounted for, nothing happened
   * when every file was already accounted for, and each new row is one of
   * the files registered under its own folder.
   */
  ghost predicate InspectRunProgress(rows0: seq<BackupInfo>, rows: seq<BackupInfo>, handled: seq<Entry>,
                                     all: seq<Entry>, known: bool, targetPath: string, kit: Toolkit,
                                     same: (BackupInfo, BackupInfo) -> bool)
  {
    && rows0 <= rows
    && (forall e :: e in handled ==> Reconciled(rows, e, targetPath, kit, same))
    && (known ==> rows == rows0)
    && forall r :: r in rows[|rows0|..] ==> AdoptedFrom(r, all, targetPath, kit)
  }

  /** One more batch handled by `InspectBatch` keeps the progress of the whole pass. */
  lemma InspectRunStep(rows0: seq<BackupInfo>, before: seq<BackupInfo>, after: seq<BackupInfo>,
                       handled: seq<Entry>, batch: seq<Entry>, all: seq<Entry>, known: bool,
                       targetPath: string, kit: Toolkit, same: (BackupInfo, BackupInfo) -> bool)
    requires InspectRunProgress(rows0, before, handled, all, known, targetPath, kit, same)
    requires forall k :: 0 <= k < |batch| ==> batch[k] in all
    requires known ==> forall e :: e in all ==> Reconciled(rows0, e, targetPath, kit, same)
    requires InspectProgress(before, after, batch, |batch|,
                             forall k :: 0 <= k < |batch| ==> Reconciled(before, batch[k], targetPath, kit, same),
                             targetPath, kit, same)
    ensures InspectRunProgress(rows0, after, handled + batch, all, known, targetPath, kit, same)
  {
    GainedSplit(rows0, before, after);
    forall r | r in after[|rows0|..]
      ensures AdoptedFrom(r, all, targetPath, kit)
    {
      if r !in before[|rows0|..] {
        var e :| e in batch && r == Adopted(e, targetPath, kit);
        assert e in all;
      }
    }
    forall e | e in handled + batch
      ensures Reconciled(after, e, targetPath, kit, same)
    {
      if e in handled {
        ReconciledGrows(before, after, e, targetPath, kit, same);
      } else {
        var k :| 0 <= k < |batch| && batch[k] == e;
      }
    }
  }

  // ---------------------------------------------------------------------
  // A whole run
  // ---------------------------------------------------------------------

  /**
   * The work of `collect_files`: with a source or target path missing
   * nothing happens; otherwise the destination folder is reconciled, but
   * only when the catalog is empty, and the source is then copied into it.
   * `reconciled` tells whether the reconciliation ran. `inspected` is the
   * catalog between reconciliation and copying: the rows reconciliation
   * adds are adopted destination files, and the rows and actions copying
   * adds are what copying the source files in order adds.
   */
  method CollectFiles(catalog: BackupCatalog, sourcePath: string, targetPath: string,
                      source: seq<seq<Entry>>, target: seq<seq<Entry>>, kit: Toolkit)
    returns (actions: seq<Organizer.Action>, reconciled: bool, ghost inspected: seq<BackupInfo>)
    requires catalog.Valid()
    modifies catalog
    ensures catalog.Valid() && old(catalog.rows) <= inspected <= catalog.rows
    ensures !reconciled ==> inspected == old(catalog.rows)
    ensures sourcePath == [] || targetPath == [] ==>
      catalog.rows == old(catalog.rows) && catalog.commits == old(catalog.commits) && actions == [] && !reconciled
    ensures sourcePath != [] && targetPath != [] ==>
      && reconciled == (old(catalog.rows) == [])
      && (reconciled ==> forall e :: e in Flatten(target) ==> Reconciled(catalog.rows, e, targetPath, kit, catalog.same))
      && (forall e :: e in Flatten(source) ==> Accounted(catalog.rows, InfoOf(e, kit), catalog.same))
      && catalog.commits == old(catalog.commits) + |source|
      && (forall r :: r in inspected[|old(catalog.rows)|..] ==> AdoptedFrom(r, Flatten(target), targetPath, kit))
      && Copies(inspected, InfosOf(Flatten(source), kit), catalog.rows[|inspected|..], actions,
                targetPath, kit.sep, catalog.same)
  {
    actions, reconciled, inspected := [], false, catalog.rows;
    if sourcePath == [] || targetPath == [] {
      return;
    }
    if catalog.Count() == 0 {
      reconciled := true;
      InspectCollectedFiles(catalog, target, targetPath, kit);
    }
    inspected := catalog.rows;
    actions := CopyFiles(catalog, source, targetPath, kit);
    if reconciled {
      forall e | e in Flatten(target)
        ensures Reconciled(catalog.rows, e, targetPath, kit, catalog.same)
      {
        ReconciledGrows(inspected, catalog.rows, e, targetPath, kit, catalog.same);
      }
    }
  }
}
