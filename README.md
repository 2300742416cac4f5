# busker media ingestion and deduplication, modelled in Dafny

This project models the engine of `busker`, a desktop tool that copies photos
and other files from a source folder into a destination folder laid out by
year and month, and keeps a SQLite catalog so that no file is copied twice.
The model has two variants:

- **The photo engine** (`busker/photo/`). A file's record holds its size,
  its MD5 hash, its capture time and its destination partition. The capture
  time is the EXIF `DateTimeOriginal` of an image, or the modification time.
  The partition is `%Y<sep>%m` of the capture time.
  1. The catalog's `file_info` table has two uniqueness constraints: one on
     `(save_to, name)` and one on `(size, hash, captured_at)`.
  2. A run first reconciles the catalog with the files already under the
     destination folder.
  3. It then walks the source folder in batches of 500. Each file whose
     content the catalog does not know is copied into its partition, under
     the first name free there (`a.jpg`, `a_01.jpg`, `a_02.jpg`, …), and
     registered.
  4. It commits once per batch.
- **The older backup engine** (`busker/file/backup/backupper.py`). Its
  record is a dictionary with the same derived fields. Its partition comes
  from the first seven characters of the capture string. Its name suffixes
  compound (`a.jpg`, `a_01.jpg`, `a_01_02.jpg`, …). It reconciles the
  destination folder only when the catalog is empty.

Modules, one file each:

| file | module | models |
|---|---|---|
| `results.dfy` | `Results` | `Option`, `Result`, and the outcome of an insert |
| `pytext.dfy` | `PyText` | the Python `str`/`os.path` behaviour the engine relies on: `str(n)`, `zfill`, `lower`, `find`/`rfind`, `replace`, `splitext`, `join` |
| `clock.dfy` | `Clock` | `datetime`, the `%Y<sep>%m` partition, the EXIF capture string and its `strptime` |
| `seqs.dfy` | `Seqs` | concatenation of batches, set cardinality |
| `file_info.dfy` | `FileInfos` | `busker/photo/file_info.py` |
| `sql.dfy` | `PhotoSql` | `busker/photo/sql.py`, with the `file_info` table as the class `Catalog` |
| `organizer.dfy` | `Organizer` | the engine of `busker/photo/organizer.py` |
| `backupper.dfy` | `Backupper` | the engine of `busker/file/backup/backupper.py`, with its catalog as the class `BackupCatalog` |

The file system is an input:

- A folder is a `Volume`: its `os.walk` order plus a `stat` function that
  gives each file's bytes, timestamps and EXIF reading.
- MD5 and the platform separator are parameters.
- `os.makedirs` and `shutil.copy2` are recorded as a list of `Action`s, in
  the order the engine performs them. They are not applied.

The catalog is a class. Its `rows` field holds the table in insertion order.
Its lookups are functions that read it. Register and commit are methods.
`Valid()` states the table's constraints. For the photo catalog they are:

- both uniqueness constraints hold;
- the AUTOINCREMENT ids are assigned and increasing.

The central properties proved:

- **Reconciliation.** After reconciliation, every file under the destination
  folder is accounted for: either a row sits at its folder and name, or a
  row has its content.
- **Copying.** After copying, every source photo has a row with its content.
- **Free names.** The name chosen is the first free one in its folder. The
  loop that picks it terminates.
- **Actions match rows.** The copy actions line up one-to-one with the rows
  added.
- **Idempotence.** A run with nothing new changes nothing, so running the
  photo engine twice copies nothing the second time.
- **Round trips.** The EXIF capture string parses back to its timestamp.
  The partition reads back as its year and month. `zfill` is injective.

## Model

| member | source | states |
|---|---|---|
| `FileInfos.Classify` | busker/photo/file_info.py:19-27 | `FileType.get_file_type`: the extension of the final component, lower-cased, looked up among the image and then the video extensions; its meaning is stated by `FileInfos.ClassifyRule` and the lemmas below it |
| `FileInfos.ClassifyRule` | busker/photo/file_info.py:19-27 | a name is an image exactly when the last dot of its final component follows another character of that component and the text from that dot lower-cases to one of the six image extensions; a video exactly when it lower-cases to one of the six video extensions; unknown otherwise |
| `FileInfos.ClassifyByExtension` | busker/photo/file_info.py:19-27 | a name whose final component has a character other than a dot, followed by an extension that lower-cases to a listed one, is an image or a video accordingly, whatever dots the stem holds |
| `FileInfos.LeadingDotsUnknown` | busker/photo/file_info.py:21-27 | a final component whose dots all come before its other characters (`.jpg`, `..jpg`, `file`) has unknown type, whatever dots the folder holds |
| `FileInfos.SampleHiddenName` | busker/photo/file_info.py:21-27 | `.jpg` is of unknown type |
| `FileInfos.SampleDottedStem` | busker/photo/file_info.py:21-23 | `a.b.JPG` is an image |
| `FileInfos.SampleDottedFolder` | busker/photo/file_info.py:21-27 | `x.d/file` is of unknown type: the folder's dot starts no extension |
| `FileInfos.ClassifyIgnoresCase` | busker/photo/file_info.py:21-24 | two names that lower-case alike get the same media type, because the extension is compared lower-cased |
| `FileInfos.NoExtensionIsUnknown` | busker/photo/file_info.py:21-27 | a name without a dot, or one ending in a bare dot, is of unknown type |
| `FileInfos.NewFileInfo` | busker/photo/file_info.py:44-55 | construction fails with TypeError exactly when name or path is None; otherwise every field holds the argument given |
| `FileInfos.EmptyNameAndPathAccepted` | busker/tests/photo/test_photo.py:46-53 | the constructor accepts an empty name and an empty path, although these tests expect TypeError for them |
| `FileInfos.GetRelativePath` | busker/photo/file_info.py:61-64 | the relative path is undefined (IndexError) exactly when the root is empty |
| `FileInfos.RelativePathStripsRoot` | busker/photo/file_info.py:61-64 | a path made of the root, a separator and a rest that does not repeat them has that rest as its relative path |
| `FileInfos.RelativePathOutsideRoot` | busker/photo/file_info.py:64 | a path that does not contain the root and separator comes back unchanged |
| `FileInfos.RelativePathOfRoot` | busker/photo/file_info.py:62-64 | the root directory itself is its own relative path, not the empty string |
| `FileInfos.CapturedAt` | busker/photo/file_info.py:83-92 | the capture time `FileInfo.create` chooses: the EXIF `DateTimeOriginal` of an image when it reads and parses, the modification time otherwise; stated by the three lemmas below |
| `FileInfos.CapturedAtOfNonImage` | busker/photo/file_info.py:83-84 | a file that is not an image is captured at its modification time |
| `FileInfos.CapturedAtFromExif` | busker/photo/file_info.py:84-90 | an image whose tag 0x9003 is the EXIF text of a timestamp is captured at that timestamp |
| `FileInfos.CapturedAtFallsBack` | busker/photo/file_info.py:85-92 | an unreadable image, a missing tag or an unparseable one leaves the modification time as the capture time |
| `FileInfos.Describe` | busker/photo/file_info.py:67-104 | the record `FileInfo.create` builds from a file's data; stated by `FileInfos.DescribePartition`, `FileInfos.AllInfosDescribed` and `FileInfos.Create` |
| `FileInfos.DescribePartition` | busker/photo/file_info.py:94 | every record has a capture time, and its partition is seven characters: the year, the separator and the month of that time |
| `FileInfos.SampleScreenshot` | busker/tests/photo/test_photo.py:55-68 | the test screenshot, which has no EXIF date, is an image captured at its modification time and filed under `2023\12` |
| `FileInfos.ReadBlock` | busker/photo/file_info.py:75 | a read returns at most 8192 bytes at the offset; it is empty only at the end and full unless it reaches the end |
| `FileInfos.HashFile` | busker/photo/file_info.py:72-77 | the blocks fed to MD5 are non-empty, at most 8192 bytes, full except the last, and together the whole content; the digest is the MD5 of the content |
| `FileInfos.Create` | busker/photo/file_info.py:67-104 | the record built is the one `Describe` specifies from the file's data |
| `FileInfos.AllInfosDescribed` | busker/photo/file_info.py:95-104 | every record the traversal produces has no id and has a capture time |
| `FileInfos.ReadAllFiles` | busker/photo/file_info.py:107-118 | the batches concatenate to the records of the whole traversal in walk order; every batch is full except a non-empty last one; their number is the file count divided by the batch size, rounded up |
| `FileInfos.BatchCountOf` | busker/photo/file_info.py:112-118 | `full` full batches plus a remainder give `full` batches, plus one when the remainder is non-empty |
| `FileInfos.ReadStep` | busker/photo/file_info.py:110-114 | the files of one directory join the pending list in order, each as the record `Describe` gives; the yielded batches are full and the pending list stays below the batch size |
| `FileInfos.Gather` | busker/photo/file_info.py:111-114 | one record is appended to the pending list, which is yielded as a full batch once it reaches the batch size; nothing is lost or reordered |
| `Clock.Partition` | busker/photo/file_info.py:94 | `strftime('%Y<sep>%m')`: the zero-padded year and month around the separator; stated by `Clock.PartitionFields` and `Clock.PartitionInjective` |
| `Clock.PartitionFields` | busker/photo/file_info.py:94 | a partition is the four-digit year, the separator and the two-digit month, each readable back |
| `Clock.PartitionInjective` | busker/photo/file_info.py:94 | two timestamps share a partition only when they share year and month |
| `Clock.ParseExif` | busker/photo/file_info.py:90 | the parse of the zero-padded `DDDD:DD:DD DD:DD:DD` form: it succeeds only on that form and a valid calendar time, with no microseconds (the other forms `strptime` accepts are under "Left out") |
| `Clock.ExifRoundTrip` | busker/photo/file_info.py:90 | parsing the EXIF text of a whole-second timestamp gives that timestamp back |
| `Clock.SampleCaptureString` | busker/tests/file/test_utils.py:36-39 | the sample capture string `2019:04:17 11:44:37` parses to 2019-04-17 11:44:37 |
| `PyText.ZFillValue` | busker/photo/organizer.py:198 | `str(n).zfill(w)` reads back as n |
| `PyText.ZFillInjective` | busker/photo/organizer.py:198 | distinct counts give distinct zero-padded suffixes |
| `PyText.ZFillExactWidth` | busker/photo/file_info.py:94 | a number below 10^w pads to exactly w digits |
| `PyText.SplitExt` | busker/photo/organizer.py:197 | stem and extension concatenate to the name; the extension is empty, or a dot followed by neither dots nor separators |
| `PyText.SplitExtRule` | busker/photo/organizer.py:197 | the extension is non-empty exactly when the last dot of the final component follows some other character of that component, and it then starts at that dot |
| `PyText.Find` | busker/photo/sql.py:20 | `find('?')` is the first index of the character, or -1 when it is absent |
| `PyText.ReplaceAbsent` | busker/photo/file_info.py:64 | `replace` of a pattern that does not occur leaves the string as it is |
| `PyText.ReplaceCharPointwise` | busker/file/backup/backupper.py:215 | replacing `:` by the separator keeps the length and changes exactly the colons |
| `PyText.ReplaceAll` | busker/photo/file_info.py:64 | `str.replace`: every non-overlapping occurrence, left to right, is replaced; stated by `PyText.ReplaceAbsent` and `PyText.ReplaceCharPointwise` |
| `PyText.Join` | busker/photo/organizer.py:186 | `os.path.join` of two parts: the second alone when it starts with the separator, otherwise the two joined by one separator unless the first is empty or already ends in one |
| `PyText.SplitSample` | busker/photo/organizer.py:197 | a stem without dots or separators and a dot-led extension without further dots split back into that stem and extension |
| `PhotoSql.Date` | busker/photo/sql.py:24-25 | `strftime('%Y/%m/%d')`: the zero-padded year, month and day between slashes; stated by `PhotoSql.DateFields` |
| `PhotoSql.Time` | busker/photo/sql.py:22-23 | the `%H:%M:%S` part of a datetime: zero-padded hour, minute and second between colons; stated by `PhotoSql.TimeFields` |
| `PhotoSql.Render` | busker/photo/sql.py:22-31 | how one parameter is written into the query, case by case in the order of the `isinstance` tests; stated by the `Render…` lemmas below |
| `PhotoSql.DateFields` | busker/photo/sql.py:24-25 | a date is ten characters, `YYYY/MM/DD`, whose year, month and day read back |
| `PhotoSql.TimeFields` | busker/photo/sql.py:22-23 | a time of day is eight characters, `HH:MM:SS`, whose hour, minute and second read back |
| `PhotoSql.RenderDate` | busker/photo/sql.py:24-25 | a date is written as its `YYYY/MM/DD` text between single quotes, twelve characters in all |
| `PhotoSql.RenderDateTime` | busker/photo/sql.py:22-23 | a datetime is written as its date, a space and its `HH:MM:SS` time between single quotes, twenty-one characters in all, microseconds dropped |
| `PhotoSql.SampleDate` | busker/tests/file/test_utils.py:43-48 | the date of the tests, 2023-01-15, is `2023/01/15` |
| `PhotoSql.SampleRenderDate` | busker/tests/file/test_utils.py:43-48 | that date is written `'2023/01/15'` into the query |
| `PhotoSql.SampleTime` | busker/tests/file/test_utils.py:50-55 | 12:30:00 of the tests is `12:30:00` |
| `PhotoSql.SampleRenderDateTime` | busker/tests/file/test_utils.py:50-55 | the datetime 2023-01-15 12:30:00 is written `'2023/01/15 12:30:00'` |
| `PhotoSql.RenderNumber` | busker/photo/sql.py:26-27 | a number is written in decimal, zero as `0`, and reads back as itself |
| `PhotoSql.RenderText` | busker/photo/sql.py:28-31 | a non-empty text is quoted verbatim with no escaping; an empty one is written NULL, like None |
| `PhotoSql.Substitute` | busker/photo/sql.py:20-35 | one turn of the loop: the first `?` is replaced by the rendered parameter, or the query is unchanged when there is none; stated by `PhotoSql.SubstituteMarks` and `PhotoSql.SubstituteFirst` |
| `PhotoSql.SubstituteAll` | busker/photo/sql.py:19-35 | the parameters substituted in order; stated by `PhotoSql.SubstituteAllNext`, `PhotoSql.MarksAfterSubstitution` and `PhotoSql.SubstituteThree` |
| `PhotoSql.SubstituteMarks` | busker/photo/sql.py:20-35 | one substitution removes one `?` and adds those of the rendered parameter, or changes nothing when none is left |
| `PhotoSql.MarksAfterSubstitution` | busker/photo/sql.py:19-35 | when no rendered parameter contains `?`, q marks and p parameters leave max(0, q - p) marks |
| `PhotoSql.RenderedMarkIsConsumed` | busker/photo/sql.py:19-35 | a `?` inside a rendered text is taken by the next parameter |
| `PhotoSql.SubstituteAllNext` | busker/photo/sql.py:19-35 | substituting one more parameter is one more turn of the loop on the query so far |
| `PhotoSql.SubstituteFirst` | busker/photo/sql.py:20-35 | after a prefix without `?`, the next mark is replaced by the rendered parameter and the rest is kept |
| `PhotoSql.SubstituteAfter` | busker/photo/sql.py:20-35 | after mark-free text and an already rendered parameter, the next mark takes the next parameter |
| `PhotoSql.SubstituteAllThree` | busker/photo/sql.py:19-35 | three parameters are three turns of the loop, in order |
| `PhotoSql.SubstituteThree` | busker/photo/sql.py:19-35 | three marks between mark-free pieces take three parameters in order, each rendered in place, when the first two render without `?` (the `UPDATE … SET column1 = ?, column2 = ? WHERE id = ?` query of busker/tests/file/test_utils.py:57-69) |
| `PhotoSql.ParameterizeQuery` | busker/photo/sql.py:13-36 | None returns the query unchanged; otherwise the result is the parameters substituted one after another into the first remaining `?` |
| `PhotoSql.SelectByKey` | busker/photo/sql.py:84-93 | the rows selected are exactly those at the folder and name, and the result is empty exactly when there are none |
| `PhotoSql.AtMostOneAtKey` | busker/photo/sql.py:66 | under the constraints, at most one row sits at a folder and name |
| `PhotoSql.FirstSame` | busker/photo/sql.py:99-107 | the row found has equal size, hash and non-NULL capture time; None exactly when no row has |
| `PhotoSql.InsertKeepsUnique` | busker/photo/sql.py:66-67 | appending a row that clashes with none keeps both constraints |
| `PhotoSql.Catalog.constructor` | busker/photo/sql.py:51-70 | a new table is empty, satisfies its constraints and has no commit |
| `PhotoSql.Catalog.Count` | busker/photo/sql.py:73-78 | the count is the number of rows |
| `PhotoSql.Catalog.FindBySaveToName` | busker/photo/sql.py:81-93 | returns exactly the rows at that folder and name, [] exactly when there is none, and at most one row |
| `PhotoSql.Catalog.FindSame` | busker/photo/sql.py:96-107 | some row with equal content, None exactly when there is none, and always None for a record without capture time (SQL `=` on NULL) |
| `PhotoSql.Catalog.Register` | busker/photo/sql.py:110-125 | the insert succeeds exactly when neither constraint would be violated; then one row with the record's fields and a fresh, larger id is appended; otherwise nothing changes |
| `PhotoSql.Catalog.Commit` | busker/photo/organizer.py:207 | the committed state becomes the current rows and the commit count rises by one |
| `Organizer.Candidate` | busker/photo/organizer.py:196-198 | the name tried after `count` collisions: the stem of the original name, `_`, the count padded to two digits, and the extension; stated by the lemmas below |
| `Organizer.CandidateLength` | busker/photo/organizer.py:196-198 | the name after a collision is as long as the original name plus `_` and the padded count |
| `Organizer.CandidateOf` | busker/photo/organizer.py:196-198 | for a stem and a dot-led extension without further dots or separators, the candidate puts `_` and the count padded to two digits between the stem and the extension |
| `Organizer.SampleSecondCandidate` | busker/photo/organizer.py:196-198 | the second candidate for `a.jpg` is `a_02.jpg`: the count replaces, rather than extends, the first suffix |
| `Organizer.CandidateInjective` | busker/photo/organizer.py:196-198 | different counts give different names |
| `Organizer.NotTriedBefore` | busker/photo/organizer.py:194-198 | the name tried after k collisions was not tried before |
| `Organizer.TriedMore` | busker/photo/organizer.py:194-198 | a taken candidate joins the taken names at the folder, so the candidates tried never outnumber the names there |
| `Organizer.FirstFreeUnique` | busker/photo/organizer.py:194-198 | only one count stops the loop, so the catalog determines the name chosen |
| `Organizer.ResolveName` | busker/photo/organizer.py:191-198 | the loop stops; the name chosen is free in the folder, every earlier candidate is taken there, and the name is the candidate for its count |
| `Organizer.CopyPhoto` | busker/photo/organizer.py:181-206 | a record whose content is known changes nothing; otherwise its folder is created, it is copied under the first free name, and it is registered with a fresh id |
| `Organizer.CopiedMatches` | busker/photo/organizer.py:186-205 | one copied record adds one row, which has its content, and two actions that point at that row's folder and name |
| `Organizer.Copies` | busker/photo/organizer.py:173-206 | what copying a sequence of records in order adds: each record whose content a row holds by its turn adds nothing, and each other one adds, at that turn, its folder, its copy under the first free name and its row with a fresh id, as `CopyPhoto` does |
| `Organizer.CopiesNext` | busker/photo/organizer.py:181-206 | one more record handled as `CopyPhoto` does extends what copying the records before it added |
| `Organizer.CopiesAppend` | busker/photo/organizer.py:172-207 | copying one run of records and then another adds what copying the two runs together adds, so batches compose into the whole traversal |
| `Organizer.AnnouncedEndsAtLastPath` | busker/photo/organizer.py:176-179 | the last directory announced is the current directory |
| `Organizer.AnnouncedNoStutter` | busker/photo/organizer.py:176-179 | no directory is announced twice in a row, and the first differs from the starting directory |
| `Organizer.AnnouncedCovers` | busker/photo/organizer.py:176-179 | every record's directory is announced, unless it is the starting one |
| `Organizer.AnnouncedAppend` | busker/photo/organizer.py:172-179 | announcements across batches continue from the last batch's directory |
| `Organizer.AnnouncedNext` | busker/photo/organizer.py:176-179 | one more record adds its directory to the announcements exactly when it differs from the current directory, and becomes the current directory |
| `Organizer.CopyBatch` | busker/photo/organizer.py:173-207 | after a batch, every record with a capture time has a row with its content; with all contents known nothing changes; the new rows and actions are exactly what copying the batch's records in order adds (`Copies`: a record known by its turn is left alone, any other is copied from its own path to the first free name), and they line up; messages are the directory changes; one commit of all rows |
| `Organizer.CopyNext` | busker/photo/organizer.py:181-206 | copying one more record of a batch keeps the batch's progress: every handled record with a capture time has a row with its content, the actions match the new rows, and rows and actions are what copying the handled records in order adds |
| `Organizer.CopyBatches` | busker/photo/organizer.py:172-207 | the same across all batches: the new rows and actions are what copying the flattened batches in order adds, with one commit per batch |
| `Organizer.CopyNextBatch` | busker/photo/organizer.py:172-207 | one more batch keeps the run's progress, including what copying the records so far adds, continues the directory announcements, and commits once |
| `Organizer.CopyPhotos` | busker/photo/organizer.py:170-207 | the same for the traversal of the source folder in batches of 500: the new rows and actions are what copying the source records in walk order adds |
| `Organizer.InspectOne` | busker/photo/organizer.py:153-165 | a record already at its place, or with known content, changes nothing; otherwise it is registered at its relative folder with a fresh id |
| `Organizer.InspectBatch` | busker/photo/organizer.py:152-165 | after a batch every record is accounted for, nothing changes if all were, and new rows are relocated records of the batch |
| `Organizer.InspectBatches` | busker/photo/organizer.py:151-165 | across all batches every record is accounted for, nothing changes if all were, and new rows are relocated records of the pass |
| `Organizer.InspectNextBatch` | busker/photo/organizer.py:151-165 | one more batch keeps the progress of the pass and commits nothing |
| `Organizer.InspectCollectedFiles` | busker/photo/organizer.py:146-168 | after the pass over the destination in batches of 1000, every file there is accounted for, nothing changed if all were, new rows are relocated destination files, and nothing is committed |
| `Organizer.CollectPhotos` | busker/photo/organizer.py:99-134 | a missing path changes nothing; otherwise every destination file is accounted for, the rows reconciliation adds are relocated destination files, the rows and actions copying adds after them are what copying the source records in order adds, every source file has a row with its content, the messages are the directory changes, and a run with nothing new changes nothing |
| `Organizer.CollectTwice` | busker/photo/organizer.py:99-134 | a second run over the same folders copies nothing and registers nothing: the catalog after it is the catalog after the first run |
| `Backupper.CapturePartition` | busker/file/backup/backupper.py:215 | the first seven characters of the capture string with every `:` replaced by the separator; stated by `Backupper.ExifPrefix` and `Backupper.CapturePartitionOfExif` |
| `Backupper.GetFileInfo` | busker/file/backup/backupper.py:195-217 | the record `get_file_info` builds; stated by `Backupper.GetFileInfoDefault` |
| `Backupper.GetFileInfoDefault` | busker/file/backup/backupper.py:195-217 | the original datetime is set exactly for an image with a non-empty capture string; otherwise the partition is the modification month |
| `Backupper.ExifPrefix` | busker/file/backup/backupper.py:215 | the first seven characters of a capture string are the year, `:` and the month |
| `Backupper.CapturePartitionOfExif` | busker/file/backup/backupper.py:208-215 | for the EXIF text of a timestamp, the capture-string partition equals the `%Y<sep>%m` partition of that timestamp |
| `Backupper.SampleCapturePartition` | busker/tests/file/test_utils.py:36-39 | the sample capture string `2019:04:17 11:44:37` is filed under `2019<sep>04` |
| `Backupper.SelectByKey` | busker/file/backup/backupper.py:137 | the rows selected are exactly those at the folder and name |
| `Backupper.FirstSame` | busker/file/backup/backupper.py:140 | the row found is the same file by the catalog's relation; None exactly when no row is |
| `Backupper.AppendFreeKeepsKeyUnique` | busker/file/backup/backupper.py:177-188 | registering at a free folder and name keeps one row per place |
| `Backupper.AtMostOneAtKey` | busker/file/backup/backupper.py:137 | with one row per place, at most one row sits at a folder and name |
| `Backupper.BackupCatalog.constructor` | busker/file/backup/backupper.py:27 | a new catalog is empty, with no commit |
| `Backupper.BackupCatalog.Count` | busker/file/backup/backupper.py:110 | the count is the number of rows |
| `Backupper.BackupCatalog.FindByRelativePathName` | busker/file/backup/backupper.py:137 | returns exactly the rows at that folder and name, [] exactly when there is none, and at most one row in a catalog that keeps one row per place |
| `Backupper.BackupCatalog.FindSame` | busker/file/backup/backupper.py:165 | some row that is the same file by the relation, None exactly when there is none |
| `Backupper.BackupCatalog.Register` | busker/file/backup/backupper.py:188 | the record becomes the last row |
| `Backupper.BackupCatalog.Commit` | busker/file/backup/backupper.py:190 | the committed state becomes the current rows and the commit count rises by one |
| `Backupper.Suffixed` | busker/file/backup/backupper.py:180-181 | one retry: the current name split at its extension, `_` and the padded count inserted; stated by `Backupper.SuffixedOf` and `Backupper.SuffixedLonger` |
| `Backupper.Compounded` | busker/file/backup/backupper.py:177-182 | the name after n retries, each applied to the previous name; stated by `Backupper.CompoundedGrows` and `Backupper.CompoundedTwice` |
| `Backupper.SuffixedLonger` | busker/file/backup/backupper.py:180-181 | each retry makes the name at least three characters longer |
| `Backupper.CompoundedGrows` | busker/file/backup/backupper.py:177-182 | after n retries the name is at least 3n characters longer |
| `Backupper.SampleCompounding` | busker/file/backup/backupper.py:177-182 | `a.jpg` is retried as `a_01.jpg`, then as `a_01_02.jpg` |
| `Backupper.CompoundedTwice` | busker/file/backup/backupper.py:177-182 | for a stem and an extension without further dots or separators, the first two retries insert `_01`, then `_01_02`, before the extension |
| `Backupper.SuffixedOf` | busker/file/backup/backupper.py:180-181 | one retry of such a name puts `_` and the padded count between stem and extension |
| `Backupper.EnginesDiffer` | busker/file/backup/backupper.py:180-181 | the photo engine's first retry name agrees with this engine's, and its second (`a_02.jpg`) does not |
| `Backupper.FirstFreeUnique` | busker/file/backup/backupper.py:177-182 | only one count stops the loop |
| `Backupper.ResolveCompounded` | busker/file/backup/backupper.py:175-182 | the loop stops; the name chosen is free in the folder, every earlier retry is taken there, and the name is the compounded name for its count |
| `Backupper.TakenMore` | busker/file/backup/backupper.py:177-182 | a retry found taken joins the taken ones and is no longer than the longest name in the catalog, which bounds the loop |
| `Backupper.CopyFile` | busker/file/backup/backupper.py:154-189 | a file the catalog holds the same of changes nothing; otherwise its folder is created, it is copied under the first free compounded name, and its record is registered under that name |
| `Backupper.StoredMatches` | busker/file/backup/backupper.py:170-188 | one stored file adds one row, which is its record up to the name, and two actions that point at that row's folder and name |
| `Backupper.Copies` | busker/file/backup/backupper.py:153-188 | what copying a sequence of files in order adds: each file the rows hold the same of by its turn adds nothing, and each other one adds, at that turn, its folder, its copy under the first free compounded name and its record under that name, as `CopyFile` does |
| `Backupper.CopiesNext` | busker/file/backup/backupper.py:154-188 | one more file handled as `CopyFile` does extends what copying the files before it added |
| `Backupper.CopiesAppend` | busker/file/backup/backupper.py:150-190 | copying one run of files and then another adds what copying the two runs together adds, so batches compose into the whole walk |
| `Backupper.InfosOf` | busker/file/backup/backupper.py:154-156 | the records of a batch, one per file in order |
| `Backupper.CopyBatch` | busker/file/backup/backupper.py:153-190 | after a batch every file is accounted for; with all files held nothing changes; the new rows and actions are exactly what copying the batch's files in order adds (`Copies`: a file held the same of by its turn is left alone, any other is copied from its own path under the first free compounded name), and they line up; one commit of all rows |
| `Backupper.CopyFiles` | busker/file/backup/backupper.py:150-190 | the same across all batches: the new rows and actions are what copying the files of the whole walk in order adds, with one commit per batch |
| `Backupper.CopyNextBatch` | busker/file/backup/backupper.py:152-190 | one more batch keeps the run's progress: every handled file accounted for, actions matching the new rows, rows and actions what copying the files so far in order adds, and one commit |
| `Backupper.RelativeOf` | busker/file/backup/backupper.py:135 | the folder a destination file is filed under: its directory with the target path and a separator removed wherever they occur; stated by the two lemmas below |
| `Backupper.RelativeOfBelow` | busker/file/backup/backupper.py:135 | a directory below the target path is filed under the rest of its path |
| `Backupper.RelativeOfTarget` | busker/file/backup/backupper.py:135 | a file directly in the target path is filed under the whole target path, not under the empty folder |
| `Backupper.InspectFile` | busker/file/backup/backupper.py:134-148 | a file already at its place, or the same as a row, changes nothing; otherwise its record is registered under its own relative folder |
| `Backupper.InspectBatch` | busker/file/backup/backupper.py:133-148 | after a batch every file is accounted for, nothing changes if all were, and new rows are files of the batch |
| `Backupper.InspectNextBatch` | busker/file/backup/backupper.py:131-148 | one more batch keeps the progress of the pass and commits nothing |
| `Backupper.InspectCollectedFiles` | busker/file/backup/backupper.py:131-148 | after the pass every destination file is accounted for, nothing changed if all were, new rows are destination files under their own folders, and nothing is committed |
| `Backupper.CollectFiles` | busker/file/backup/backupper.py:94-119 | a missing path changes nothing; otherwise reconciliation runs exactly when the catalog was empty and then accounts for every destination file, adding only adopted destination files; the rows and actions copying adds after that are what copying the source files in order adds; every source file is accounted for, and there is one commit per source batch |

Where the code and its tests or schema disagree, the model follows the code:

- `FileInfo.__init__` rejects only None as a name or path, although
  busker/tests/photo/test_photo.py:46-53 expects an empty string to be
  rejected too. `FileInfos.EmptyNameAndPathAccepted` states what the code
  does.
- The `file_info` table lets `captured_at` be NULL
  (busker/photo/sql.py:64), but `FileInfo.create` always sets it, falling
  back to the modification time. `FileInfos.AllInfosDescribed` states this.

## Left out

- The Tkinter user interface is not modelled: windows, directory pickers,
  message panel widgets and logging. So are the confirmation dialog of
  `collect_photos` for a destination that exists and is not empty, or does
  not exist; a refusal there is the same as a missing path. The application
  bootstrap at the end of both engine files is left out too.
- busker/file/utils.py and busker/file/sql.py are not part of this model.
  For the backup engine:
  - file typing, `stat`, MD5, the capture string and the traversal are
    parameters;
  - the catalog's same-file lookup is an abstract relation;
  - its catalog is assumed to have no constraint, so `Register` always
    appends;
  - the engine's own loop keeps one row per folder and name.
- Exceptions raised by the file system, by PIL and by SQLite are not
  modelled. The one exception the engine swallows is the EXIF parse failure,
  and it is modelled. A failing insert in the photo engine is modelled as an
  `Outcome`.
- `str.lower` is modelled on ASCII letters only.
- `Clock.ParseExif`: models `strptime` on the zero-padded fixed-width form
  only. `strptime` also accepts single-digit fields (`2019:4:17 11:44:37`)
  and any run of whitespace, tabs included, in place of the space. A field
  may also be padded with a space (`2019:04: 7 11:44:37`, which `%d` takes
  as 7), and `\d` matches any Unicode decimal digit, not only ASCII ones.
  For such a tag the program files the image under its EXIF month; the
  model finds no parse and falls back to the modification time.
- `Clock.Partition`: writes the year with four digits. `strftime('%Y')`
  need not pad a year below 1000, which an EXIF date such as `0999:…`
  allows, so the seven-character partition is not promised for those years.
- `FileInfos.DescribePartition`: states the seven-character partition of
  `Clock.Partition`, which pads the year to four digits; for a capture year
  below 1000 the program's partition may be shorter, as the line above says.
- `Organizer.CollectTwice`: the second run sees the same destination
  volume as the first. Copies are recorded as actions, not applied, so the
  files the first run copied are not part of the second run's destination.
- The destination files are not state of the model. So it does not show
  whether `shutil.copy2` overwrites a file already in the destination
  folder, such as one that reconciliation left unregistered because a row
  already held its content.
- `os.path.join`, `splitext` and `replace` use one separator character: no
  drive letters and no alternative separator.
- The generators of `read_all_files` are modelled as the finished list of
  batches, and `os.walk` as a given sequence of directory steps.
- Floating-point and boolean parameters of `parameterize_query` are not
  modelled; numbers are integers.
- File-system effects are recorded as actions, not applied.
- Concurrency, the process crashing between a copy and its commit, and
  rollback are not modelled.
- `Backupper.CollectFiles`: states no idempotence. With the same-file
  relation abstract, a file stored under a compounded name need not count as
  the same file on a later run.
- `Backupper.CopyBatch`: does not model the directory announcements of
  `copy_files`. They follow the same rule as the photo engine's, which
  `Organizer.Announced` models.
