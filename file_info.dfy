/**
 * The file record of the photo engine (busker/photo/file_info.py): media
 * type classification, the record constructor, relative paths, the capture
 * time and destination partition of a file, block-wise hashing and the
 * batched directory traversal.
 *
 * The file system is an input: a traversal in `os.walk` order and a `stat`
 * function giving each file's bytes, timestamps and EXIF reading. MD5 is an
 * uninterpreted function of the bytes, and the path separator is a parameter.
 */
module FileInfos {
  import opened Results
  import opened PyText
  import opened Clock
  import opened Seqs

  newtype byte = x: int | 0 <= x < 256

  /** What the engine needs from the platform: `os.path.sep` and the MD5 hex digest. */
  datatype Platform = Platform(sep: char, md5: seq<byte> -> string)

  datatype FileType = Image | Video | Unknown

  const ImageExtensions: seq<string> := [".jpg", ".jpeg", ".png", ".gif", ".bmp", ".tiff"]
  const VideoExtensions: seq<string> := [".mp4", ".avi", ".mov", ".mkv", ".flv", ".wmv"]

  /** `FileType.create`: the media type from the lower-cased `splitext` extension. */
  function Classify(fileName: string, sep: char): FileType
  {
    var ext := Lower(SplitExt(fileName, sep).1);
    if ext in ImageExtensions then Image
    else if ext in VideoExtensions then Video
    else Unknown
  }

  lemma LowerCharKeeps(x: char, c: char)
    requires !IsAsciiLetter(c)
    ensures LowerChar(x) == c <==> x == c
  {
  }

  /** Two strings with the same characters at the same places have the same last index of c. */
  lemma {:induction false} RFindAgrees(a: string, b: string, c: char)
    requires |a| == |b|
    requires forall i :: 0 <= i < |a| ==> (a[i] == c <==> b[i] == c)
    ensures RFind(a, c) == RFind(b, c)
    decreases |a|
  {
    if |a| > 0 && a[|a| - 1] != c {
      RFindAgrees(a[..|a| - 1], b[..|b| - 1], c);
    }
  }

  /** Names with dots and separators at the same places split at the same place. */
  lemma SplitExtAgrees(a: string, b: string, sep: char)
    requires |a| == |b|
    requires forall i :: 0 <= i < |a| ==> (a[i] == '.' <==> b[i] == '.') && (a[i] == sep <==> b[i] == sep)
    ensures |SplitExt(a, sep).0| == |SplitExt(b, sep).0|
  {
    RFindAgrees(a, b, '.');
    RFindAgrees(a, b, sep);
    var sepIndex, dotIndex := RFind(a, sep), RFind(a, '.');
    if exists i :: sepIndex < i < dotIndex && a[i] != '.' {
      var i :| sepIndex < i < dotIndex && a[i] != '.';
      assert b[i] != '.';
    }
    if exists i :: sepIndex < i < dotIndex && b[i] != '.' {
      var i :| sepIndex < i < dotIndex && b[i] != '.';
      assert a[i] != '.';
    }
  }

  lemma LowerSuffix(s: string, n: nat)
    requires n <= |s|
    ensures Lower(s[n..]) == Lower(s)[n..]
  {
  }

  /**
   * Case never matters: names that lower-case alike classify alike (for a
   * separator that is not a letter, as `/` and `\` are not).
   */
  lemma ClassifyIgnoresCase(a: string, b: string, sep: char)
    requires Lower(a) == Lower(b) && !IsAsciiLetter(sep)
    ensures Classify(a, sep) == Classify(b, sep)
  {
    forall i | 0 <= i < |a|
      ensures (a[i] == '.' <==> b[i] == '.') && (a[i] == sep <==> b[i] == sep)
    {
      assert LowerChar(a[i]) == LowerChar(b[i]);
      LowerCharKeeps(a[i], '.');
      LowerCharKeeps(b[i], '.');
      LowerCharKeeps(a[i], sep);
      LowerCharKeeps(b[i], sep);
    }
    SplitExtAgrees(a, b, sep);
    var n := |SplitExt(a, sep).0|;
    assert SplitExt(a, sep).1 == a[n..] && SplitExt(b, sep).1 == b[n..];
    LowerSuffix(a, n);
    LowerSuffix(b, n);
  }

  /** Every listed extension is a dot followed by lower-case letters or digits only. */
  lemma ExtensionShape(ext: string)
    requires ext in ImageExtensions + VideoExtensions
    ensures |ext| >= 2 && ext[0] == '.' && forall i :: 1 <= i < |ext| ==> 'a' <= ext[i] <= 'z' || '0' <= ext[i] <= '9'
  {
  }

  /**
   * The media type by the rule of `splitext`: an image exactly when the last
   * dot of the final component follows some other character of it and the
   * text from that dot on lower-cases to a listed image extension; a video
   * likewise; otherwise unknown.
   */
  lemma ClassifyRule(p: string, sep: char)
    ensures Classify(p, sep) == Image <==>
      exists d :: LastDotAt(p, d, sep) && StemBefore(p, d, sep) && Lower(p[d..]) in ImageExtensions
    ensures Classify(p, sep) == Video <==>
      exists d :: LastDotAt(p, d, sep) && StemBefore(p, d, sep) && Lower(p[d..]) in VideoExtensions
  {
    SplitExtRule(p, sep);
    var ext := SplitExt(p, sep).1;
    if ext == [] {
      assert Lower(ext) !in ImageExtensions + VideoExtensions;
    } else {
      var d :| LastDotAt(p, d, sep) && StemBefore(p, d, sep);
      ClassifyAt(p, d, sep);
    }
  }

  /** With an extension starting at d, the type is read from the text from d on. */
  lemma ClassifyAt(p: string, d: int, sep: char)
    requires LastDotAt(p, d, sep) && StemBefore(p, d, sep)
    ensures forall e :: LastDotAt(p, e, sep) && StemBefore(p, e, sep) ==> e == d
    ensures Classify(p, sep) == Image <==> Lower(p[d..]) in ImageExtensions
    ensures Classify(p, sep) == Video <==> Lower(p[d..]) in VideoExtensions
  {
    SplitExtRule(p, sep);
    if Lower(p[d..]) in VideoExtensions {
      VideoIsNotImage(Lower(p[d..]));
    }
  }

  /** No extension is listed both as an image and as a video. */
  lemma VideoIsNotImage(ext: string)
    requires ext in VideoExtensions
    ensures ext !in ImageExtensions
  {
  }

  /**
   * A name whose final component has some character other than a dot,
   * followed by an extension that lower-cases to a listed one, is an image or
   * a video accordingly, whatever dots the rest of the name holds.
   */
  lemma ClassifyByExtension(stem: string, ext: string, sep: char)
    requires exists i :: 0 <= i < |stem| && stem[i] != '.' && forall j :: i <= j < |stem| ==> stem[j] != sep
    requires Lower(ext) in ImageExtensions + VideoExtensions && sep !in ext
    ensures Classify(stem + ext, sep) == if Lower(ext) in ImageExtensions then Image else Video
  {
    ExtensionShape(Lower(ext));
    var p, d := stem + ext, |stem|;
    LowerCharKeeps(ext[0], '.');
    forall j | d < j < |p|
      ensures p[j] != '.' && p[j] != sep
    {
      assert p[j] == ext[j - d] && Lower(ext)[j - d] != '.';
      LowerCharKeeps(ext[j - d], '.');
    }
    assert LastDotAt(p, d, sep);
    var i :| 0 <= i < |stem| && stem[i] != '.' && forall j :: i <= j < |stem| ==> stem[j] != sep;
    assert p[i] != '.' && forall j :: i <= j <= d ==> p[j] != sep;
    assert StemBefore(p, d, sep);
    assert p[d..] == ext;
    ClassifyRule(p, sep);
  }

  /**
   * A final component whose dots all come before its other characters, such
   * as `.jpg` or `..jpg` or one without a dot, has no extension, so its type
   * is unknown; a dot in the directory part does not count.
   */
  lemma LeadingDotsUnknown(dir: string, comp: string, sep: char)
    requires dir == [] || dir[|dir| - 1] == sep
    requires sep !in comp
    requires forall i, j :: 0 <= i < j < |comp| && comp[j] == '.' ==> comp[i] == '.'
    ensures Classify(dir + comp, sep) == Unknown
  {
    var p := dir + comp;
    SplitExtRule(p, sep);
    if dir != [] {
      assert p[|dir| - 1] == sep;
    }
    assert Lower(SplitExt(p, sep).1) == [];
  }

  /** A name that is only a dot and an extension, `.jpg`, has unknown type. */
  lemma SampleHiddenName()
    ensures Classify(".jpg", '/') == Unknown
  {
    assert [] + ".jpg" == ".jpg";
    LeadingDotsUnknown([], ".jpg", '/');
  }

  /** `a.b.JPG` is an image: only the last dot starts the extension, and case does not matter. */
  lemma SampleDottedStem()
    ensures Classify("a.b.JPG", '/') == Image
  {
    assert Lower(".JPG") == ".jpg";
    assert "a.b" + ".JPG" == "a.b.JPG";
    assert "a.b"[2] != '.' && forall j :: 2 <= j < 3 ==> "a.b"[j] != '/';
    ClassifyByExtension("a.b", ".JPG", '/');
  }

  /** A dot in a folder name gives no extension: `x.d/file` has unknown type. */
  lemma SampleDottedFolder()
    ensures Classify("x.d/file", '/') == Unknown
  {
    assert "x.d/" + "file" == "x.d/file";
    LeadingDotsUnknown("x.d/", "file", '/');
  }

  /** A name without a dot, or one ending in a bare dot, has unknown type. */
  lemma NoExtensionIsUnknown(fileName: string, sep: char)
    requires '.' !in fileName || (fileName != [] && fileName[|fileName| - 1] == '.')
    ensures Classify(fileName, sep) == Unknown
  {
    var ext := SplitExt(fileName, sep).1;
    if '.' !in fileName {
      assert ext == [];
    } else {
      assert ext == [] || ext == ".";
    }
  }

  /** The catalog row / in-memory record of one file. */
  datatype FileInfo = FileInfo(
    id: Option<nat>,
    name: string,
    path: string,
    size: nat,
    hash: string,
    createdAt: DateTime,
    modifiedAt: DateTime,
    fileType: FileType,
    capturedAt: Option<DateTime>,
    saveTo: string)

  /** `full_name`: the record's directory joined with its name. */
  function FullName(fi: FileInfo, sep: char): string
  {
    Join(fi.path, fi.name, sep)
  }

  datatype InitError = TypeError

  /**
   * `FileInfo.__init__`: a missing name or path raises TypeError; otherwise
   * every argument is stored as given.
   */
  function NewFileInfo(id: Option<nat>, name: Option<string>, path: Option<string>, size: nat,
                       hash: string, createdAt: DateTime, modifiedAt: DateTime, fileType: FileType,
                       capturedAt: Option<DateTime>, saveTo: string): (r: Result<FileInfo, InitError>)
    ensures r.Err? <==> name.None? || path.None?
    ensures r.Ok? ==> && r.value.id == id && r.value.name == name.value && r.value.path == path.value
                      && r.value.size == size && r.value.hash == hash
                      && r.value.createdAt == createdAt && r.value.modifiedAt == modifiedAt
                      && r.value.fileType == fileType && r.value.capturedAt == capturedAt
                      && r.value.saveTo == saveTo
  {
    if name.None? || path.None? then Err(TypeError)
    else Ok(FileInfo(id, name.value, path.value, size, hash, createdAt, modifiedAt,
                     fileType, capturedAt, saveTo))
  }

  /** The constructor accepts an empty name and an empty path: only None is rejected. */
  lemma EmptyNameAndPathAccepted(t: DateTime)
    ensures NewFileInfo(Some(0), Some(""), Some(""), 100, "3324a", t, t, Image, None, "").Ok?
  {
  }

  /** The root with a trailing separator, as `get_relative_path` prepares it. */
  function WithSep(root: string, sep: char): (r: string)
    requires root != []
    ensures |r| > 0 && r[|r| - 1] == sep
  {
    if root[|root| - 1] != sep then root + [sep] else root
  }

  /**
   * `FileInfo.get_relative_path`: every occurrence of the root plus
   * separator is removed from the record's path. An empty root fails
   * (Python's `relative_root[-1]` raises IndexError).
   */
  function GetRelativePath(path: string, root: string, sep: char): (r: Option<string>)
    ensures r.None? <==> root == []
  {
    if root == [] then None else Some(ReplaceAll(path, WithSep(root, sep), ""))
  }

  /** A path below the root loses exactly the root prefix. */
  lemma RelativePathStripsRoot(root: string, rest: string, sep: char)
    requires root != [] && !Occurs(rest, WithSep(root, sep))
    ensures GetRelativePath(WithSep(root, sep) + rest, root, sep) == Some(rest)
  {
    var pre := WithSep(root, sep);
    assert (pre + rest)[..|pre|] == pre;
    assert (pre + rest)[|pre|..] == rest;
    ReplaceAbsent(rest, pre, "");
    assert ReplaceAll(pre + rest, pre, "") == "" + ReplaceAll(rest, pre, "");
    assert "" + rest == rest;
    assert ReplaceAll(pre + rest, pre, "") == rest;
    assert GetRelativePath(pre + rest, root, sep) == Some(ReplaceAll(pre + rest, pre, ""));
  }

  /** A path that does not contain the root plus separator comes back unchanged. */
  lemma RelativePathOutsideRoot(path: string, root: string, sep: char)
    requires root != [] && !Occurs(path, WithSep(root, sep))
    ensures GetRelativePath(path, root, sep) == Some(path)
  {
    ReplaceAbsent(path, WithSep(root, sep), "");
  }

  /** The root itself (without trailing separator) is its own relative path. */
  lemma RelativePathOfRoot(root: string, sep: char)
    requires root != [] && root[|root| - 1] != sep
    ensures GetRelativePath(root, root, sep) == Some(root)
  {
    RelativePathOutsideRoot(root, root, sep);
  }

  /** What PIL reports for a file: cannot open it, no EXIF tags, or tags with 0x9003 present or absent. */
  datatype Exif = Unreadable | NoTags | Tags(dateTimeOriginal: Option<string>)

  /** What the file system and PIL report for one file. */
  datatype FileData = FileData(content: seq<byte>, createdAt: DateTime, modifiedAt: DateTime, exif: Exif)

  /**
   * The capture time of `FileInfo.create`: the EXIF `DateTimeOriginal` of
   * an image when it parses, otherwise the modification time; every
   * failure on the way is swallowed.
   */
  function CapturedAt(fileType: FileType, modifiedAt: DateTime, exif: Exif): DateTime
  {
    if fileType == Image && exif.Tags? && exif.dateTimeOriginal.Some?
       && ParseExif(exif.dateTimeOriginal.value).Some?
    then ParseExif(exif.dateTimeOriginal.value).value
    else modifiedAt
  }

  /** Only images can take their capture time from anywhere but the modification time. */
  lemma CapturedAtOfNonImage(fileType: FileType, modifiedAt: DateTime, exif: Exif)
    requires fileType != Image
    ensures CapturedAt(fileType, modifiedAt, exif) == modifiedAt
  {
  }

  /** An image whose tag 0x9003 is the EXIF text of a timestamp is captured at that timestamp. */
  lemma CapturedAtFromExif(modifiedAt: DateTime, dt: DateTime)
    requires ValidDateTime(dt) && dt.microsecond == 0
    ensures CapturedAt(Image, modifiedAt, Tags(Some(ExifString(dt)))) == dt
  {
    ExifRoundTrip(dt);
  }

  /** A missing or unparseable tag leaves the modification time in place. */
  lemma CapturedAtFallsBack(fileType: FileType, modifiedAt: DateTime, exif: Exif)
    requires !exif.Tags? || exif.dateTimeOriginal.None? || ParseExif(exif.dateTimeOriginal.value).None?
    ensures CapturedAt(fileType, modifiedAt, exif) == modifiedAt
  {
  }

  /** The record `FileInfo.create(name, path)` builds for a file with the given data. */
  function Describe(path: string, name: string, data: FileData, pf: Platform): FileInfo
  {
    var fileType := Classify(name, pf.sep);
    var capturedAt := CapturedAt(fileType, data.modifiedAt, data.exif);
    FileInfo(None, name, path, |data.content|, pf.md5(data.content), data.createdAt,
             data.modifiedAt, fileType, Some(capturedAt), Partition(capturedAt, pf.sep))
  }

  /**
   * Every described file carries a capture time, and its destination
   * partition is the year and month of that time.
   */
  lemma DescribePartition(path: string, name: string, data: FileData, pf: Platform)
    requires ValidDateTime(data.modifiedAt)
    ensures var fi := Describe(path, name, data, pf);
      && fi.capturedAt.Some? && ValidDateTime(fi.capturedAt.value)
      && |fi.saveTo| == 7 && fi.saveTo[4] == pf.sep
      && AllDigits(fi.saveTo[..4]) && Value(fi.saveTo[..4]) == fi.capturedAt.value.year
      && AllDigits(fi.saveTo[5..]) && Value(fi.saveTo[5..]) == fi.capturedAt.value.month
  {
    DescribeFields(path, name, data, pf);
    PartitionFields(CapturedAt(Classify(name, pf.sep), data.modifiedAt, data.exif), pf.sep);
  }

  /** The screenshot of the repository's tests: no EXIF date, so it files under its modification month. */
  lemma SampleScreenshot(content: seq<byte>, md5: seq<byte> -> string)
    ensures var t := DateTime(2023, 12, 25, 9, 20, 30, 825352);
      var fi := Describe("tests", "screenshot20231009.png", FileData(content, t, t, NoTags), Platform('\\', md5));
      fi.fileType == Image && fi.capturedAt == Some(t) && fi.saveTo == "2023\\12"
  {
    var t := DateTime(2023, 12, 25, 9, 20, 30, 825352);
    SampleScreenshotName();
    SampleDecember();
    DescribeFields("tests", "screenshot20231009.png", FileData(content, t, t, NoTags), Platform('\\', md5));
  }

  /** The fields `Describe` derives, one by one. */
  lemma DescribeFields(path: string, name: string, data: FileData, pf: Platform)
    ensures var fi := Describe(path, name, data, pf);
      && fi.fileType == Classify(name, pf.sep)
      && fi.capturedAt == Some(CapturedAt(Classify(name, pf.sep), data.modifiedAt, data.exif))
      && fi.saveTo == Partition(CapturedAt(Classify(name, pf.sep), data.modifiedAt, data.exif), pf.sep)
  {
  }

  lemma SampleScreenshotName()
    ensures Classify("screenshot20231009.png", '\\') == Image
  {
    ScreenshotStem();
    assert Lower(".png") == ".png";
    assert "screenshot20231009"[0] != '.';
    ClassifyByExtension("screenshot20231009", ".png", '\\');
  }

  lemma ScreenshotStem()
    ensures '.' !in "screenshot20231009" && '\\' !in "screenshot20231009" + ".png"
    ensures "screenshot20231009" + ".png" == "screenshot20231009.png"
    ensures ".png" in ImageExtensions + VideoExtensions
  {
    assert ".png" == ImageExtensions[2];
  }

  lemma SampleDecember()
    ensures Partition(DateTime(2023, 12, 25, 9, 20, 30, 825352), '\\') == "2023\\12"
  {
    assert Digits(20) == "20" && Digits(202) == "202" && Digits(2023) == "2023";
    assert ZFill(2023, 4) == "2023" && ZFill(12, 2) == "12";
  }

  const BlockSize: nat := 8192

  /** `f.read(BlockSize)` at offset pos: at most BlockSize bytes, empty only at the end. */
  function ReadBlock(content: seq<byte>, pos: nat): (block: seq<byte>)
    requires pos <= |content|
    ensures |block| <= BlockSize && pos + |block| <= |content|
    ensures block == [] <==> pos == |content|
    ensures pos + |block| < |content| ==> |block| == BlockSize
    ensures content[pos..pos + |block|] == block
  {
    if |content| - pos <= BlockSize then content[pos..] else content[pos..pos + BlockSize]
  }

  /**
   * The blocks read so far cover the first `pos` bytes: each is non-empty
   * and at most BlockSize long, every one but the last is full, and a
   * short last block means the end was reached.
   */
  ghost predicate BlocksCover(content: seq<byte>, blocks: seq<seq<byte>>, pos: nat)
  {
    && pos <= |content| && Flatten(blocks) == content[..pos]
    && (forall k :: 0 <= k < |blocks| ==> 0 < |blocks[k]| <= BlockSize)
    && (forall k :: 0 <= k < |blocks| - 1 ==> |blocks[k]| == BlockSize)
    && (blocks != [] && |blocks[|blocks| - 1]| < BlockSize ==> pos == |content|)
  }

  /** Reading one more block before the end extends the covered prefix by that block. */
  lemma BlocksCoverStep(content: seq<byte>, blocks: seq<seq<byte>>, pos: nat)
    requires BlocksCover(content, blocks, pos) && pos < |content|
    ensures var block := ReadBlock(content, pos);
      && BlocksCover(content, blocks + [block], pos + |block|)
      && content[..pos + |block|] == content[..pos] + block
  {
    var block := ReadBlock(content, pos);
    FlattenAppend(blocks, block);
    assert content[..pos + |block|] == content[..pos] + block;
  }

  /**
   * The hashing loop of `FileInfo.create`: blocks are fed to the MD5 state
   * until the first empty read. The blocks are non-empty, at most
   * BlockSize long, full except the last, and together the whole content;
   * the digest is the MD5 of the content.
   */
  method HashFile(content: seq<byte>, md5: seq<byte> -> string) returns (digest: string, blocks: seq<seq<byte>>)
    ensures digest == md5(content)
    ensures Flatten(blocks) == content
    ensures forall k :: 0 <= k < |blocks| ==> 0 < |blocks[k]| <= BlockSize
    ensures forall k :: 0 <= k < |blocks| - 1 ==> |blocks[k]| == BlockSize
  {
    var absorbed: seq<byte> := [];
    var pos := 0;
    blocks := [];
    var block := ReadBlock(content, pos);
    while block != []
      invariant BlocksCover(content, blocks, pos) && absorbed == content[..pos]
      invariant block == ReadBlock(content, pos)
      decreases |content| - pos
    {
      BlocksCoverStep(content, blocks, pos);
      absorbed := absorbed + block;
      blocks := blocks + [block];
      pos := pos + |block|;
      block := ReadBlock(content, pos);
    }
    assert content[..pos] == content;
    digest := md5(absorbed);
  }

  /** `FileInfo.create(name, path)`: hash the content, classify, derive capture time and partition. */
  method Create(name: string, path: string, data: FileData, pf: Platform) returns (fi: FileInfo)
    ensures fi == Describe(path, name, data, pf)
  {
    var digest, _ := HashFile(data.content, pf.md5);
    var fileType := Classify(name, pf.sep);
    var capturedAt := data.modifiedAt;
    if fileType == Image && data.exif.Tags? && data.exif.dateTimeOriginal.Some? {
      var parsed := ParseExif(data.exif.dateTimeOriginal.value);
      if parsed.Some? {
        capturedAt := parsed.value;
      }
    }
    var saveTo := Partition(capturedAt, pf.sep);
    fi := FileInfo(None, name, path, |data.content|, digest, data.createdAt, data.modifiedAt,
                   fileType, Some(capturedAt), saveTo);
  }

  /** One `(root, dirs, files)` triple of `os.walk`; the sub-directory list plays no part here. */
  datatype WalkStep = WalkStep(root: string, files: seq<string>)

  /** A directory tree as the engine sees it: its traversal and the data of each (directory, name). */
  datatype Volume = Volume(walk: seq<WalkStep>, stat: (string, string) -> FileData)

  /** A file found by the traversal: its directory and its name. */
  datatype Entry = Entry(dir: string, name: string)

  /** The files of one directory, in order. */
  function DirEntries(root: string, files: seq<string>): (es: seq<Entry>)
    ensures |es| == |files|
  {
    if files == [] then [] else DirEntries(root, files[..|files| - 1]) + [Entry(root, files[|files| - 1])]
  }

  function StepEntries(step: WalkStep): seq<Entry>
  {
    DirEntries(step.root, step.files)
  }

  /** Every file of a traversal, in walk order. */
  function Entries(walk: seq<WalkStep>): seq<Entry>
  {
    if walk == [] then [] else Entries(walk[..|walk| - 1]) + StepEntries(walk[|walk| - 1])
  }

  /** The record of one file found by the traversal. */
  function InfoOf(e: Entry, vol: Volume, pf: Platform): FileInfo
  {
    Describe(e.dir, e.name, vol.stat(e.dir, e.name), pf)
  }

  /** `rs` holds the records of the files `es`, one per file, in order. */
  ghost predicate RecordsOf(rs: seq<FileInfo>, es: seq<Entry>, vol: Volume, pf: Platform)
  {
    |rs| == |es| && forall k :: 0 <= k < |rs| ==> rs[k] == InfoOf(es[k], vol, pf)
  }

  /** All records a traversal of the volume produces, in walk order. */
  function AllInfos(vol: Volume, pf: Platform): (r: seq<FileInfo>)
    ensures RecordsOf(r, Entries(vol.walk), vol, pf)
  {
    var es := Entries(vol.walk);
    seq(|es|, k requires 0 <= k < |es| => InfoOf(es[k], vol, pf))
  }

  /** The records of a list of files are determined by the files. */
  lemma RecordsOfUnique(a: seq<FileInfo>, b: seq<FileInfo>, es: seq<Entry>, vol: Volume, pf: Platform)
    requires RecordsOf(a, es, vol, pf) && RecordsOf(b, es, vol, pf)
    ensures a == b
  {
  }

  /** The records of two lists of files, one after the other, are those of the files one after the other. */
  lemma RecordsOfAppend(r1: seq<FileInfo>, e1: seq<Entry>, r2: seq<FileInfo>, e2: seq<Entry>, es: seq<Entry>,
                        vol: Volume, pf: Platform)
    requires RecordsOf(r1, e1, vol, pf) && RecordsOf(r2, e2, vol, pf) && es == e1 + e2
    ensures RecordsOf(r1 + r2, es, vol, pf)
  {
    forall k | |r1| <= k < |r1| + |r2|
      ensures (r1 + r2)[k] == InfoOf(es[k], vol, pf)
    {
      assert (r1 + r2)[k] == r2[k - |r1|] && es[k] == e2[k - |e1|];
    }
  }

  /** Every record of a traversal is new (no id) and carries a capture time. */
  lemma AllInfosDescribed(vol: Volume, pf: Platform)
    ensures forall fi :: fi in AllInfos(vol, pf) ==> fi.id.None? && fi.capturedAt.Some?
  {
  }

  /** The number of batches of a traversal of n files: n / size rounded up. */
  function BatchCount(n: nat, size: nat): nat
    requires size >= 1
    decreases n
  {
    if n == 0 then 0 else if n <= size then 1 else 1 + BatchCount(n - size, size)
  }

  lemma {:induction false} BatchCountOf(full: nat, size: nat, rest: nat)
    requires size >= 1 && rest < size
    ensures BatchCount(full * size + rest, size) == full + (if rest > 0 then 1 else 0)
  {
    if full > 0 {
      assert full * size + rest - size == (full - 1) * size + rest;
      BatchCountOf(full - 1, size, rest);
    }
  }

  lemma {:induction false} FlattenFullLength<T>(batches: seq<seq<T>>, size: nat)
    requires forall k :: 0 <= k < |batches| ==> |batches[k]| == size
    ensures |Flatten(batches)| == |batches| * size
  {
    if batches != [] {
      FlattenFullLength(batches[..|batches| - 1], size);
      assert (|batches| - 1) * size + size == |batches| * size;
    }
  }

  /** The batch size actually used: a size below 1 behaves as 1. */
  function EffectiveSize(batchSize: int): nat
  {
    if batchSize < 1 then 1 else batchSize
  }

  /**
   * `read_all_files(directory, batch_size)`: the records of the traversal,
   * cut into batches of `batch_size` with a shorter, non-empty last batch;
   * an empty traversal yields no batch.
   */
  method ReadAllFiles(vol: Volume, batchSize: int, pf: Platform) returns (batches: seq<seq<FileInfo>>)
    ensures Flatten(batches) == AllInfos(vol, pf)
    ensures forall k :: 0 <= k < |batches| ==> 1 <= |batches[k]| <= EffectiveSize(batchSize)
    ensures forall k :: 0 <= k < |batches| - 1 ==> |batches[k]| == EffectiveSize(batchSize)
    ensures |batches| == BatchCount(|Entries(vol.walk)|, EffectiveSize(batchSize))
  {
    var size := EffectiveSize(batchSize);
    var walk := vol.walk;
    var fileInfos: seq<FileInfo> := [];
    batches := [];
    ghost var all: seq<FileInfo> := [];
    for i := 0 to |walk|
      invariant Flatten(batches) + fileInfos == all && RecordsOf(all, Entries(walk[..i]), vol, pf)
      invariant |fileInfos| < size
      invariant forall k :: 0 <= k < |batches| ==> |batches[k]| == size
    {
      assert walk[..i + 1][..i] == walk[..i];
      ghost var made;
      batches, fileInfos, made := ReadStep(walk[i], vol, batchSize, pf, batches, fileInfos, all);
      RecordsOfAppend(all, Entries(walk[..i]), made, StepEntries(walk[i]), Entries(walk[..i + 1]), vol, pf);
      all := all + made;
    }
    assert walk[..|walk|] == walk;
    RecordsOfUnique(all, AllInfos(vol, pf), Entries(walk), vol, pf);
    FlattenFullLength(batches, size);
    BatchCountOf(|batches|, size, |fileInfos|);
    if fileInfos != [] {
      FlattenAppend(batches, fileInfos);
      batches := batches + [fileInfos];
    }
  }

  /**
   * The inner loop of `read_all_files` over the files of one directory:
   * each record joins the pending list, which is yielded as a batch and
   * emptied once it holds `batch_size` records.
   */
  method ReadStep(step: WalkStep, vol: Volume, batchSize: int, pf: Platform,
                  batches0: seq<seq<FileInfo>>, pending0: seq<FileInfo>, ghost before: seq<FileInfo>)
    returns (batches: seq<seq<FileInfo>>, fileInfos: seq<FileInfo>, ghost made: seq<FileInfo>)
    requires Flatten(batches0) + pending0 == before
    requires |pending0| < EffectiveSize(batchSize)
    requires forall k :: 0 <= k < |batches0| ==> |batches0[k]| == EffectiveSize(batchSize)
    ensures Flatten(batches) + fileInfos == before + made && RecordsOf(made, StepEntries(step), vol, pf)
    ensures |fileInfos| < EffectiveSize(batchSize)
    ensures forall k :: 0 <= k < |batches| ==> |batches[k]| == EffectiveSize(batchSize)
  {
    batches, fileInfos, made := batches0, pending0, [];
    for j := 0 to |step.files|
      invariant Flatten(batches) + fileInfos == before + made && |made| == j
      invariant RecordsOf(made, DirEntries(step.root, step.files[..j]), vol, pf)
      invariant |fileInfos| < EffectiveSize(batchSize)
      invariant forall k :: 0 <= k < |batches| ==> |batches[k]| == EffectiveSize(batchSize)
    {
      var fi := Create(step.files[j], step.root, vol.stat(step.root, step.files[j]), pf);
      RecordOfOne(Entry(step.root, step.files[j]), fi, vol, pf);
      RecordsOfNext(made, step, j, fi, vol, pf);
      batches, fileInfos := Gather(batches, fileInfos, fi, batchSize, before, made);
      made := made + [fi];
    }
    assert step.files[..|step.files|] == step.files;
  }

  /** The record `Create` builds for the next file of a directory extends the records of the files before it. */
  lemma RecordsOfNext(made: seq<FileInfo>, step: WalkStep, j: nat, fi: FileInfo, vol: Volume, pf: Platform)
    requires j < |step.files| && RecordsOf(made, DirEntries(step.root, step.files[..j]), vol, pf)
    requires RecordsOf([fi], [Entry(step.root, step.files[j])], vol, pf)
    ensures RecordsOf(made + [fi], DirEntries(step.root, step.files[..j + 1]), vol, pf)
  {
    assert step.files[..j + 1][..j] == step.files[..j];
    RecordsOfAppend(made, DirEntries(step.root, step.files[..j]), [fi], [Entry(step.root, step.files[j])],
                    DirEntries(step.root, step.files[..j + 1]), vol, pf);
  }

  lemma RecordOfOne(e: Entry, fi: FileInfo, vol: Volume, pf: Platform)
    requires fi == Describe(e.dir, e.name, vol.stat(e.dir, e.name), pf)
    ensures RecordsOf([fi], [e], vol, pf)
  {
  }

  /**
   * One record joins the pending list of `read_all_files`; a list that
   * reaches `batch_size` is yielded as a batch and emptied.
   */
  method Gather<T>(batches0: seq<seq<T>>, pending0: seq<T>, x: T, batchSize: int,
                   ghost base: seq<T>, ghost made: seq<T>)
    returns (batches: seq<seq<T>>, pending: seq<T>)
    requires Flatten(batches0) + pending0 == base + made
    requires |pending0| < EffectiveSize(batchSize)
    requires forall k :: 0 <= k < |batches0| ==> |batches0[k]| == EffectiveSize(batchSize)
    ensures Flatten(batches) + pending == base + (made + [x])
    ensures |pending| < EffectiveSize(batchSize)
    ensures forall k :: 0 <= k < |batches| ==> |batches[k]| == EffectiveSize(batchSize)
  {
    PushPending(batches0, pending0, base, made, x);
    batches, pending := batches0, pending0 + [x];
    if |pending| >= batchSize {
      batches := batches + [pending];
      pending := [];
    }
  }
}
