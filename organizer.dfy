/**
 * The photo organizer's engine (busker/photo/organizer.py): reconciling the
 * catalog with what already sits under the destination folder, then copying
 * every photo of the source folder whose content the catalog does not know
 * into its year/month partition under a name that is free there.
 *
 * File-system effects are recorded as actions rather than performed; the
 * folders read are given as volumes.
 */
module Organizer {
  import opened Results
  import opened PyText
  import opened Seqs
  import opened FileInfos
  import opened PhotoSql

  /** Records per batch while reconciling the destination folder. */
  const InspectBatchSize: nat := 1000
  /** Records per batch (and per commit) while copying. */
  const CopyBatchSize: nat := 500

  /** A file-system effect: `os.makedirs(folder, exist_ok=True)` or `shutil.copy2(source, target)`. */
  datatype Action = MakeDirs(folder: string) | Copy(source: string, target: string)

  // ---------------------------------------------------------------------
  // Name resolution
  // ---------------------------------------------------------------------

  /**
   * The name tried after `count` collisions: the original name itself, then
   * the original stem, `_`, the count padded to two digits and the original
   * extension.
   */
  function Candidate(name: string, count: nat, sep: char): string
  {
    if count == 0 then name
    else
      var parts := SplitExt(name, sep);
      parts.0 + "_" + ZFill(count, 2) + parts.1
  }

  lemma CandidateLength(name: string, count: nat, sep: char)
    ensures |Candidate(name, count, sep)| == if count == 0 then |name| else |name| + 1 + |ZFill(count, 2)|
  {
    var parts := SplitExt(name, sep);
    assert |parts.0| + |parts.1| == |name|;
  }

  /**
   * After a collision, the count goes between the stem and the extension of
   * the original name: `a.jpg` is retried as `a_01.jpg`, `a_02.jpg`, ….
   */
  lemma CandidateOf(stem: string, ext: string, count: nat, sep: char)
    requires count > 0
    requires |stem| > 0 && '.' !in stem && sep !in stem && sep != '.'
    requires |ext| > 0 && ext[0] == '.' && '.' !in ext[1..] && sep !in ext
    ensures Candidate(stem + ext, count, sep) == stem + "_" + ZFill(count, 2) + ext
  {
    SplitSample(stem, ext, sep);
  }

  /** The second retry of `a.jpg` is `a_02.jpg`. */
  lemma SampleSecondCandidate(sep: char)
    requires sep != '.' && sep != 'a' && sep != 'j' && sep != 'p' && sep != 'g'
    ensures Candidate("a.jpg", 2, sep) == "a_02.jpg"
  {
    assert "a" + ".jpg" == "a.jpg";
    CandidateOf("a", ".jpg", 2, sep);
    assert ZFill(2, 2) == "02";
    assert "a" + "_" + "02" + ".jpg" == "a_02.jpg";
  }

  /** The names tried for one file never repeat, so each collision moves on to a new name. */
  lemma CandidateInjective(name: string, j: nat, k: nat, sep: char)
    requires Candidate(name, j, sep) == Candidate(name, k, sep)
    ensures j == k
  {
    CandidateLength(name, j, sep);
    CandidateLength(name, k, sep);
    if j > 0 && k > 0 {
      var parts := SplitExt(name, sep);
      var stem, ext := parts.0 + "_", parts.1;
      var zj, zk := ZFill(j, 2), ZFill(k, 2);
      assert |zj| == |zk|;
      assert (stem + zj + ext)[|stem|..|stem| + |zj|] == zj;
      assert (stem + zk + ext)[|stem|..|stem| + |zk|] == zk;
      ZFillInjective(j, k, 2);
    }
  }

  /** The first `count` names tried for a file. */
  function Tried(name: string, count: nat, sep: char): set<string>
  {
    if count == 0 then {} else Tried(name, count - 1, sep) + {Candidate(name, count - 1, sep)}
  }

  /** A name tried later is never among the earlier ones. */
  lemma {:induction false} NotTriedBefore(name: string, count: nat, k: nat, sep: char)
    requires count <= k
    ensures Candidate(name, k, sep) !in Tried(name, count, sep)
  {
    if count > 0 {
      NotTriedBefore(name, count - 1, k, sep);
      if Candidate(name, k, sep) == Candidate(name, count - 1, sep) {
        CandidateInjective(name, k, count - 1, sep);
      }
    }
  }

  lemma {:induction false} TriedHas(name: string, count: nat, j: nat, sep: char)
    requires j < count
    ensures Candidate(name, j, sep) in Tried(name, count, sep)
  {
    if j < count - 1 {
      TriedHas(name, count - 1, j, sep);
    }
  }

  /** The names of the rows in one destination folder. */
  function NamesAt(rows: seq<FileInfo>, saveTo: string): set<string>
  {
    set x | x in rows && x.saveTo == saveTo :: x.name
  }

  /**
   * `count` is where the collision loop stops: its candidate is free in the
   * folder and every earlier candidate is taken.
   */
  ghost predicate FirstFree(rows: seq<FileInfo>, saveTo: string, name: string, count: nat, sep: char)
  {
    && !HasKey(rows, saveTo, Candidate(name, count, sep))
    && forall j :: 0 <= j < count ==> HasKey(rows, saveTo, Candidate(name, j, sep))
  }

  /** Only one count stops the loop, so the name chosen is determined by the catalog. */
  lemma FirstFreeUnique(rows: seq<FileInfo>, saveTo: string, name: string, c1: nat, c2: nat, sep: char)
    requires FirstFree(rows, saveTo, name, c1, sep) && FirstFree(rows, saveTo, name, c2, sep)
    ensures c1 == c2
  {
  }

  /**
   * The collision loop of `copy_photos`: try the candidates in order until
   * the catalog holds none at the destination folder under that name. It
   * stops because every rejected candidate is a distinct name of a row in
   * that folder.
   */
  method ResolveName(catalog: Catalog, saveTo: string, name: string, sep: char) returns (fileName: string, count: nat)
    ensures fileName == Candidate(name, count, sep)
    ensures catalog.FindBySaveToName(saveTo, fileName) == []
    ensures FirstFree(catalog.rows, saveTo, name, count, sep)
  {
    count := 0;
    fileName := name;
    ghost var names := NamesAt(catalog.rows, saveTo);
    while catalog.FindBySaveToName(saveTo, fileName) != []
      invariant fileName == Candidate(name, count, sep)
      invariant Tried(name, count, sep) <= names && |Tried(name, count, sep)| == count
      decreases |names| - count
    {
      TriedMore(catalog.rows, saveTo, name, count, sep);
      count := count + 1;
      var parts := SplitExt(name, sep);
      fileName := parts.0 + "_" + ZFill(count, 2) + parts.1;
    }
    TriedTaken(catalog.rows, saveTo, name, count, sep);
  }

  /** A taken candidate joins the names tried, all of them names of the folder's rows. */
  lemma TriedMore(rows: seq<FileInfo>, saveTo: string, name: string, count: nat, sep: char)
    requires Tried(name, count, sep) <= NamesAt(rows, saveTo) && |Tried(name, count, sep)| == count
    requires HasKey(rows, saveTo, Candidate(name, count, sep))
    ensures Tried(name, count + 1, sep) <= NamesAt(rows, saveTo) && |Tried(name, count + 1, sep)| == count + 1
    ensures count < |NamesAt(rows, saveTo)|
  {
    var c := Candidate(name, count, sep);
    var x :| x in rows && x.saveTo == saveTo && x.name == c;
    assert c in NamesAt(rows, saveTo);
    NotTriedBefore(name, count, count, sep);
    AddToSubset(Tried(name, count, sep), NamesAt(rows, saveTo), c);
  }

  /** Every name tried is taken in the folder. */
  lemma TriedTaken(rows: seq<FileInfo>, saveTo: string, name: string, count: nat, sep: char)
    requires Tried(name, count, sep) <= NamesAt(rows, saveTo)
    ensures forall j :: 0 <= j < count ==> HasKey(rows, saveTo, Candidate(name, j, sep))
  {
    forall j | 0 <= j < count
      ensures HasKey(rows, saveTo, Candidate(name, j, sep))
    {
      TriedHas(name, count, j, sep);
      var x :| x in rows && x.saveTo == saveTo && x.name == Candidate(name, j, sep);
    }
  }

  // ---------------------------------------------------------------------
  // Copying
  // ---------------------------------------------------------------------

  /** The destination folder of a record: its partition under the target path. */
  function Folder(targetPath: string, fi: FileInfo, sep: char): string
  {
    Join(targetPath, fi.saveTo, sep)
  }

  /**
   * The effect of copying one file whose content the catalog did not know:
   * its folder is created, it is copied there under the first free
   * candidate, and its record is registered under that name with a fresh id.
   */
  ghost predicate Copied(before: seq<FileInfo>, after: seq<FileInfo>, nextId: nat, actions: seq<Action>,
                         fi: FileInfo, targetPath: string, sep: char)
  {
    exists count: nat :: FirstFree(before, fi.saveTo, fi.name, count, sep) &&
      var fileName := Candidate(fi.name, count, sep);
      && actions == [MakeDirs(Folder(targetPath, fi, sep)),
                     Copy(FullName(fi, sep), Join(Folder(targetPath, fi, sep), fileName, sep))]
      && after == before + [fi.(name := fileName, id := Some(nextId))]
  }

  /**
   * The loop body of `copy_photos` for one record: nothing happens when a
   * row already has its content; otherwise it is copied and registered.
   */
  method CopyPhoto(catalog: Catalog, fi: FileInfo, targetPath: string, sep: char) returns (actions: seq<Action>)
    requires catalog.Valid()
    modifies catalog
    ensures catalog.Valid()
    ensures catalog.committed == old(catalog.committed) && catalog.commits == old(catalog.commits)
    ensures HasSame(old(catalog.rows), fi) ==>
      actions == [] && catalog.rows == old(catalog.rows) && catalog.nextId == old(catalog.nextId)
    ensures !HasSame(old(catalog.rows), fi) ==>
      Copied(old(catalog.rows), catalog.rows, old(catalog.nextId), actions, fi, targetPath, sep)
    ensures !HasSame(old(catalog.rows), fi) ==> Grew(old(catalog.rows), catalog.rows, actions, fi, targetPath, sep)
  {
    actions := [];
    var existing := catalog.FindSame(fi);
    if existing.Some? {
      return;
    }
    var targetFolder := Join(targetPath, fi.saveTo, sep);
    var originalFile := FullName(fi, sep);
    var fileName, count := ResolveName(catalog, fi.saveTo, fi.name, sep);
    actions := [MakeDirs(targetFolder), Copy(originalFile, Join(targetFolder, fileName, sep))];
    var renamed := fi.(name := fileName);
    assert forall x :: SameContent(x, renamed) == SameContent(x, fi);
    ghost var before := catalog.rows;
    var outcome := catalog.Register(renamed);
    assert outcome.Pass?;
    CopiedMatches(before, catalog.rows, old(catalog.nextId), actions, fi, targetPath, sep);
  }

  /**
   * The actions of a run line up with the rows it added: for each new row,
   * its folder is created and a file is copied to that folder under the
   * row's name.
   */
  ghost predicate Matches(actions: seq<Action>, added: seq<FileInfo>, targetPath: string, sep: char)
  {
    && |actions| == 2 * |added|
    && forall k :: 0 <= k < |added| ==>
      && actions[2 * k] == MakeDirs(Folder(targetPath, added[k], sep))
      && actions[2 * k + 1].Copy?
      && actions[2 * k + 1].target == Join(Folder(targetPath, added[k], sep), added[k].name, sep)
  }

  lemma MatchesAppend(a1: seq<Action>, r1: seq<FileInfo>, a2: seq<Action>, r2: seq<FileInfo>,
                      targetPath: string, sep: char)
    requires Matches(a1, r1, targetPath, sep) && Matches(a2, r2, targetPath, sep)
    ensures Matches(a1 + a2, r1 + r2, targetPath, sep)
  {
    var a, r := a1 + a2, r1 + r2;
    forall k | 0 <= k < |r|
      ensures a[2 * k] == MakeDirs(Folder(targetPath, r[k], sep))
      ensures a[2 * k + 1].Copy? && a[2 * k + 1].target == Join(Folder(targetPath, r[k], sep), r[k].name, sep)
    {
      if k < |r1| {
        assert r[k] == r1[k] && a[2 * k] == a1[2 * k] && a[2 * k + 1] == a1[2 * k + 1];
      } else {
        var k2 := k - |r1|;
        assert r[k] == r2[k2] && a[2 * k] == a2[2 * k2] && a[2 * k + 1] == a2[2 * k2 + 1];
      }
    }
  }

  /** One more row, matched by the actions, holding the record's content. */
  ghost predicate Grew(before: seq<FileInfo>, after: seq<FileInfo>, actions: seq<Action>,
                       fi: FileInfo, targetPath: string, sep: char)
  {
    && before <= after && |after| == |before| + 1
    && Matches(actions, after[|before|..], targetPath, sep)
    && (fi.capturedAt.Some? ==> SameContent(after[|before|], fi))
  }

  /** One copied file adds one matching row. */
  lemma CopiedMatches(before: seq<FileInfo>, after: seq<FileInfo>, nextId: nat, actions: seq<Action>,
                      fi: FileInfo, targetPath: string, sep: char)
    requires Copied(before, after, nextId, actions, fi, targetPath, sep)
    ensures Grew(before, after, actions, fi, targetPath, sep)
  {
    var count: nat :| FirstFree(before, fi.saveTo, fi.name, count, sep) &&
      var fileName := Candidate(fi.name, count, sep);
      && actions == [MakeDirs(Folder(targetPath, fi, sep)),
                     Copy(FullName(fi, sep), Join(Folder(targetPath, fi, sep), fileName, sep))]
      && after == before + [fi.(name := fileName, id := Some(nextId))];
    assert after[|before|..] == [after[|before|]];
  }

  /**
   * One turn of copying: fi, whose content no row of `before` holds, is
   * copied as `Copied` says, registered as `row` under the id `row` carries.
   */
  ghost predicate CopyTurn(before: seq<FileInfo>, after: seq<FileInfo>, row: FileInfo, actions: seq<Action>,
                           fi: FileInfo, targetPath: string, sep: char)
  {
    && !HasSame(before, fi)
    && row.id.Some?
    && Copied(before, after, row.id.value, actions, fi, targetPath, sep)
  }

  /** The last of the rows `added` to `rows0`, with the last two actions, is the copy of fi. */
  ghost predicate CopiedLast(rows0: seq<FileInfo>, added: seq<FileInfo>, actions: seq<Action>, fi: FileInfo,
                             targetPath: string, sep: char)
  {
    && added != [] && |actions| >= 2
    && CopyTurn(rows0 + added[..|added| - 1], rows0 + added, added[|added| - 1], actions[|actions| - 2..],
                fi, targetPath, sep)
  }

  /**
   * The rows and actions that copying the records `fis` in order adds to
   * `rows0`: a record whose content a row holds by its turn adds nothing,
   * and any other is copied as `Copied` says, against the rows as they
   * stand at its turn.
   */
  ghost predicate Copies(rows0: seq<FileInfo>, fis: seq<FileInfo>, added: seq<FileInfo>, actions: seq<Action>,
                         targetPath: string, sep: char)
    decreases |fis|
  {
    if fis == [] then added == [] && actions == []
    else
      var init, fi := fis[..|fis| - 1], fis[|fis| - 1];
      || (HasSame(rows0 + added, fi) && Copies(rows0, init, added, actions, targetPath, sep))
      || (&& CopiedLast(rows0, added, actions, fi, targetPath, sep)
          && Copies(rows0, init, added[..|added| - 1], actions[..|actions| - 2], targetPath, sep))
  }

  /** A record copied after the rows `before` is the last copy of the rows it leaves. */
  lemma CopiedLastOf(rows0: seq<FileInfo>, before: seq<FileInfo>, after: seq<FileInfo>, nextId: nat,
                     done: seq<Action>, more: seq<Action>, fi: FileInfo, targetPath: string, sep: char)
    requires rows0 <= before && !HasSame(before, fi)
    requires Copied(before, after, nextId, more, fi, targetPath, sep)
    ensures rows0 <= after && after[|rows0|..][..|after[|rows0|..]| - 1] == before[|rows0|..]
    ensures (done + more)[..|done + more| - 2] == done
    ensures CopiedLast(rows0, after[|rows0|..], done + more, fi, targetPath, sep)
  {
    var count: nat :| FirstFree(before, fi.saveTo, fi.name, count, sep) &&
      var fileName := Candidate(fi.name, count, sep);
      && more == [MakeDirs(Folder(targetPath, fi, sep)),
                  Copy(FullName(fi, sep), Join(Folder(targetPath, fi, sep), fileName, sep))]
      && after == before + [fi.(name := fileName, id := Some(nextId))];
    var added := after[|rows0|..];
    assert added[..|added| - 1] == before[|rows0|..];
    assert rows0 + added[..|added| - 1] == before && rows0 + added == after;
    assert (done + more)[|done + more| - 2..] == more && (done + more)[..|done + more| - 2] == done;
  }

  /** `CopyPhoto` on the next record extends what copying the records before it added. */
  lemma CopiesNext(rows0: seq<FileInfo>, fis: seq<FileInfo>, i: nat, before: seq<FileInfo>, after: seq<FileInfo>,
                   nextId: nat, done: seq<Action>, more: seq<Action>, targetPath: string, sep: char)
    requires i < |fis| && rows0 <= before
    requires Copies(rows0, fis[..i], before[|rows0|..], done, targetPath, sep)
    requires HasSame(before, fis[i]) ==> more == [] && after == before
    requires !HasSame(before, fis[i]) ==> Copied(before, after, nextId, more, fis[i], targetPath, sep)
    ensures rows0 <= after
    ensures Copies(rows0, fis[..i + 1], after[|rows0|..], done + more, targetPath, sep)
  {
    assert fis[..i + 1][..i] == fis[..i];
    if HasSame(before, fis[i]) {
      assert done + more == done;
      assert rows0 + before[|rows0|..] == before;
    } else {
      CopiedLastOf(rows0, before, after, nextId, done, more, fis[i], targetPath, sep);
    }
  }

  /** A copy at the end of a second run of rows is the last copy of both runs together. */
  lemma CopiedLastShift(rows0: seq<FileInfo>, a1: seq<FileInfo>, a2: seq<FileInfo>,
                        acts1: seq<Action>, acts2: seq<Action>, fi: FileInfo, targetPath: string, sep: char)
    requires CopiedLast(rows0 + a1, a2, acts2, fi, targetPath, sep)
    ensures (a1 + a2)[..|a1 + a2| - 1] == a1 + a2[..|a2| - 1]
    ensures (acts1 + acts2)[..|acts1 + acts2| - 2] == acts1 + acts2[..|acts2| - 2]
    ensures CopiedLast(rows0, a1 + a2, acts1 + acts2, fi, targetPath, sep)
  {
    var b2 := a2[..|a2| - 1];
    assert (a1 + a2)[..|a1 + a2| - 1] == a1 + b2;
    Associative(rows0, a1, b2);
    Associative(rows0, a1, a2);
    assert (a1 + a2)[|a1 + a2| - 1] == a2[|a2| - 1];
    assert (acts1 + acts2)[|acts1 + acts2| - 2..] == acts2[|acts2| - 2..];
    assert (acts1 + acts2)[..|acts1 + acts2| - 2] == acts1 + acts2[..|acts2| - 2];
  }

  /** What copying two runs of records adds, one after the other. */
  lemma {:induction false} CopiesAppend(rows0: seq<FileInfo>, xs: seq<FileInfo>, ys: seq<FileInfo>,
                                        a1: seq<FileInfo>, a2: seq<FileInfo>, acts1: seq<Action>, acts2: seq<Action>,
                                        targetPath: string, sep: char)
    requires Copies(rows0, xs, a1, acts1, targetPath, sep)
    requires Copies(rows0 + a1, ys, a2, acts2, targetPath, sep)
    ensures Copies(rows0, xs + ys, a1 + a2, acts1 + acts2, targetPath, sep)
    decreases |ys|
  {
    if ys == [] {
      assert xs + ys == xs && a1 + a2 == a1 && acts1 + acts2 == acts1;
    } else {
      var init, fi := ys[..|ys| - 1], ys[|ys| - 1];
      assert (xs + ys)[..|xs + ys| - 1] == xs + init && (xs + ys)[|xs + ys| - 1] == fi;
      if HasSame((rows0 + a1) + a2, fi) && Copies(rows0 + a1, init, a2, acts2, targetPath, sep) {
        assert (rows0 + a1) + a2 == rows0 + (a1 + a2);
        CopiesAppend(rows0, xs, init, a1, a2, acts1, acts2, targetPath, sep);
      } else {
        CopiesAppend(rows0, xs, init, a1, a2[..|a2| - 1], acts1, acts2[..|acts2| - 2], targetPath, sep);
        CopiedLastShift(rows0, a1, a2, acts1, acts2, fi, targetPath, sep);
      }
    }
  }

  lemma HasSameGrows(rows: seq<FileInfo>, more: seq<FileInfo>, fi: FileInfo)
    requires rows <= more && HasSame(rows, fi)
    ensures HasSame(more, fi)
  {
    var x :| x in rows && SameContent(x, fi);
    var i :| 0 <= i < |rows| && rows[i] == x;
    assert more[i] == x;
  }

  /** The directories announced while walking the records: each change of directory, starting after `prev`. */
  function Announced(fis: seq<FileInfo>, prev: string): seq<string>
  {
    if fis == [] then []
    else
      var init := fis[..|fis| - 1];
      var path := fis[|fis| - 1].path;
      Announced(init, prev) + (if path != LastPath(init, prev) then [path] else [])
  }

  /** `current_path` after the records: the last one's directory, or `prev` when there is none. */
  function LastPath(fis: seq<FileInfo>, prev: string): string
  {
    if fis == [] then prev else fis[|fis| - 1].path
  }

  lemma {:induction false} AnnouncedAppend(xs: seq<FileInfo>, ys: seq<FileInfo>, prev: string)
    ensures Announced(xs + ys, prev) == Announced(xs, prev) + Announced(ys, LastPath(xs, prev))
    ensures LastPath(xs + ys, prev) == LastPath(ys, LastPath(xs, prev))
    decreases |ys|
  {
    if ys == [] {
      assert xs + ys == xs;
    } else {
      var init := ys[..|ys| - 1];
      assert (xs + ys)[..|xs + ys| - 1] == xs + init;
      AnnouncedAppend(xs, init, prev);
    }
  }

  /** The announcements after one more record. */
  lemma AnnouncedNext(fis: seq<FileInfo>, i: nat, prev: string)
    requires i < |fis|
    ensures Announced(fis[..i + 1], prev) ==
      Announced(fis[..i], prev) + (if fis[i].path != LastPath(fis[..i], prev) then [fis[i].path] else [])
    ensures LastPath(fis[..i + 1], prev) == fis[i].path
  {
    assert fis[..i + 1][..i] == fis[..i];
  }

  /** The last announcement is the current directory; with none, the current directory is still `prev`. */
  lemma {:induction false} AnnouncedEndsAtLastPath(fis: seq<FileInfo>, prev: string)
    ensures var m := Announced(fis, prev);
      if m == [] then LastPath(fis, prev) == prev else m[|m| - 1] == LastPath(fis, prev)
  {
    if fis != [] {
      AnnouncedEndsAtLastPath(fis[..|fis| - 1], prev);
    }
  }

  /** No directory is announced twice in a row, nor is the first announcement `prev`. */
  lemma {:induction false} AnnouncedNoStutter(fis: seq<FileInfo>, prev: string)
    ensures var m := Announced(fis, prev);
      && (m != [] ==> m[0] != prev)
      && forall k :: 0 <= k < |m| - 1 ==> m[k] != m[k + 1]
  {
    if fis != [] {
      var init := fis[..|fis| - 1];
      AnnouncedNoStutter(init, prev);
      AnnouncedEndsAtLastPath(init, prev);
    }
  }

  /** Every record's directory is announced, unless it is `prev`. */
  lemma {:induction false} AnnouncedCovers(fis: seq<FileInfo>, prev: string)
    ensures forall i :: 0 <= i < |fis| ==> fis[i].path == prev || fis[i].path in Announced(fis, prev)
  {
    if fis != [] {
      var init := fis[..|fis| - 1];
      AnnouncedCovers(init, prev);
      AnnouncedEndsAtLastPath(init, prev);
      forall i | 0 <= i < |fis| - 1
        ensures fis[i].path == prev || fis[i].path in Announced(fis, prev)
      {
        assert fis[i] == init[i];
      }
    }
  }

  /**
   * What the first i records of a batch have done: the rows only grew, every
   * record with a capture time has a row with its content, nothing happened
   * at all when every record was already known, the actions line up
   * with the added rows, and rows and actions are what copying those
   * records in order adds.
   */
  ghost predicate CopyProgress(rows0: seq<FileInfo>, rows: seq<FileInfo>, actions: seq<Action>,
                               fileInfos: seq<FileInfo>, i: nat, known: bool, targetPath: string, sep: char)
    requires i <= |fileInfos|
  {
    && rows0 <= rows
    && (forall k :: 0 <= k < i && fileInfos[k].capturedAt.Some? ==> HasSame(rows, fileInfos[k]))
    && (known ==> rows == rows0 && actions == [])
    && Matches(actions, rows[|rows0|..], targetPath, sep)
    && Copies(rows0, fileInfos[..i], rows[|rows0|..], actions, targetPath, sep)
  }

  /** One more record handled by `CopyPhoto` keeps the progress of its batch. */
  lemma CopyStep(rows0: seq<FileInfo>, before: seq<FileInfo>, after: seq<FileInfo>,
                 nextId: nat, done: seq<Action>, more: seq<Action>, fileInfos: seq<FileInfo>, i: nat, known: bool,
                 targetPath: string, sep: char)
    requires i < |fileInfos|
    requires CopyProgress(rows0, before, done, fileInfos, i, known, targetPath, sep)
    requires known ==> HasSame(rows0, fileInfos[i])
    requires HasSame(before, fileInfos[i]) ==> more == [] && after == before
    requires !HasSame(before, fileInfos[i]) ==> Grew(before, after, more, fileInfos[i], targetPath, sep)
    requires !HasSame(before, fileInfos[i]) ==> Copied(before, after, nextId, more, fileInfos[i], targetPath, sep)
    ensures CopyProgress(rows0, after, done + more, fileInfos, i + 1, known, targetPath, sep)
  {
    CopiesNext(rows0, fileInfos, i, before, after, nextId, done, more, targetPath, sep);
    GrewMatches(rows0, before, after, done, more, known, fileInfos[i], targetPath, sep);
    GrewCovers(fileInfos, i, before, after, more, targetPath, sep);
  }

  /** The rows and actions of a batch after one more record. */
  lemma GrewMatches(rows0: seq<FileInfo>, before: seq<FileInfo>, after: seq<FileInfo>,
                    done: seq<Action>, more: seq<Action>, known: bool, fi: FileInfo, targetPath: string, sep: char)
    requires rows0 <= before && (known ==> before == rows0 && done == [])
    requires Matches(done, before[|rows0|..], targetPath, sep)
    requires known ==> HasSame(rows0, fi)
    requires HasSame(before, fi) ==> more == [] && after == before
    requires !HasSame(before, fi) ==> Grew(before, after, more, fi, targetPath, sep)
    ensures rows0 <= after && (known ==> after == rows0 && done + more == [])
    ensures Matches(done + more, after[|rows0|..], targetPath, sep)
  {
    if HasSame(before, fi) {
      assert done + more == done;
    } else {
      GainedSplit(rows0, before, after);
      MatchesAppend(done, before[|rows0|..], more, after[|before|..], targetPath, sep);
    }
  }

  /** The records of a batch that have a row with their content, after one more record. */
  lemma GrewCovers(fileInfos: seq<FileInfo>, i: nat, before: seq<FileInfo>, after: seq<FileInfo>,
                   more: seq<Action>, targetPath: string, sep: char)
    requires i < |fileInfos|
    requires forall k :: 0 <= k < i && fileInfos[k].capturedAt.Some? ==> HasSame(before, fileInfos[k])
    requires HasSame(before, fileInfos[i]) ==> after == before
    requires !HasSame(before, fileInfos[i]) ==> Grew(before, after, more, fileInfos[i], targetPath, sep)
    ensures forall k :: 0 <= k < i + 1 && fileInfos[k].capturedAt.Some? ==> HasSame(after, fileInfos[k])
  {
    var fi := fileInfos[i];
    if !HasSame(before, fi) && fi.capturedAt.Some? {
      var row := after[|before|];
      assert row in after && SameContent(row, fi);
    }
    forall k | 0 <= k < i && fileInfos[k].capturedAt.Some?
      ensures HasSame(after, fileInfos[k])
    {
      HasSameGrows(before, after, fileInfos[k]);
    }
  }

  /** `CopyPhoto` on the next record of a batch, keeping the progress of the batch. */
  method CopyNext(catalog: Catalog, fileInfos: seq<FileInfo>, i: nat, targetPath: string, sep: char,
                  ghost rows0: seq<FileInfo>, ghost known: bool, done: seq<Action>)
    returns (actions: seq<Action>)
    requires catalog.Valid() && i < |fileInfos|
    requires CopyProgress(rows0, catalog.rows, done, fileInfos, i, known, targetPath, sep)
    requires known ==> HasSame(rows0, fileInfos[i])
    modifies catalog
    ensures catalog.Valid() && catalog.commits == old(catalog.commits)
    ensures CopyProgress(rows0, catalog.rows, actions, fileInfos, i + 1, known, targetPath, sep)
  {
    ghost var before, nextId := catalog.rows, catalog.nextId;
    var more := CopyPhoto(catalog, fileInfos[i], targetPath, sep);
    actions := done + more;
    CopyStep(rows0, before, catalog.rows, nextId, done, more, fileInfos, i, known, targetPath, sep);
  }

  /**
   * One batch of `copy_photos` followed by its commit: announces directory
   * changes, copies and registers every record whose content is unknown,
   * and commits.
   */
  method CopyBatch(catalog: Catalog, fileInfos: seq<FileInfo>, targetPath: string, sep: char, currentPath: string)
    returns (messages: seq<string>, actions: seq<Action>, current: string)
    requires catalog.Valid()
    modifies catalog
    ensures catalog.Valid() && old(catalog.rows) <= catalog.rows
    ensures forall k :: 0 <= k < |fileInfos| && fileInfos[k].capturedAt.Some? ==> HasSame(catalog.rows, fileInfos[k])
    ensures (forall k :: 0 <= k < |fileInfos| ==> HasSame(old(catalog.rows), fileInfos[k])) ==>
      catalog.rows == old(catalog.rows) && actions == []
    ensures Matches(actions, catalog.rows[|old(catalog.rows)|..], targetPath, sep)
    ensures Copies(old(catalog.rows), fileInfos, catalog.rows[|old(catalog.rows)|..], actions, targetPath, sep)
    ensures messages == Announced(fileInfos, currentPath) && current == LastPath(fileInfos, currentPath)
    ensures catalog.committed == catalog.rows && catalog.commits == old(catalog.commits) + 1
  {
    ghost var rows0 := catalog.rows;
    ghost var known := forall k :: 0 <= k < |fileInfos| ==> HasSame(rows0, fileInfos[k]);
    messages, actions, current := [], [], currentPath;
    for i := 0 to |fileInfos|
      invariant catalog.Valid()
      invariant CopyProgress(rows0, catalog.rows, actions, fileInfos, i, known, targetPath, sep)
      invariant messages == Announced(fileInfos[..i], currentPath) && current == LastPath(fileInfos[..i], currentPath)
      invariant catalog.commits == old(catalog.commits)
    {
      var fi := fileInfos[i];
      AnnouncedNext(fileInfos, i, currentPath);
      if current != fi.path {
        current := fi.path;
        messages := messages + [current];
      }
      actions := CopyNext(catalog, fileInfos, i, targetPath, sep, rows0, known, actions);
    }
    assert fileInfos[..|fileInfos|] == fileInfos;
    catalog.Commit();
  }

  /**
   * `copy_photos(source_path, target_path)`: the records of the source
   * volume in batches of 500, each batch copied and then committed. Every
   * source record ends up with a row of its content, the rows only grow and
   * stay free of clashes, and a run over records whose content is all known
   * already copies and registers nothing.
   */
  method CopyPhotos(catalog: Catalog, source: Volume, targetPath: string, pf: Platform)
    returns (messages: seq<string>, actions: seq<Action>)
    requires catalog.Valid()
    modifies catalog
    ensures catalog.Valid() && old(catalog.rows) <= catalog.rows
    ensures forall fi :: fi in AllInfos(source, pf) ==> HasSame(catalog.rows, fi)
    ensures (forall fi :: fi in AllInfos(source, pf) ==> HasSame(old(catalog.rows), fi)) ==>
      catalog.rows == old(catalog.rows) && actions == []
    ensures Matches(actions, catalog.rows[|old(catalog.rows)|..], targetPath, pf.sep)
    ensures Copies(old(catalog.rows), AllInfos(source, pf), catalog.rows[|old(catalog.rows)|..], actions, targetPath, pf.sep)
    ensures messages == Announced(AllInfos(source, pf), "")
    ensures catalog.commits == old(catalog.commits) + BatchCount(|Entries(source.walk)|, CopyBatchSize)
    ensures catalog.committed == if Entries(source.walk) == [] then old(catalog.committed) else catalog.rows
  {
    var batches := ReadAllFiles(source, CopyBatchSize, pf);
    AllInfosDescribed(source, pf);
    messages, actions := CopyBatches(catalog, batches, targetPath, pf.sep);
  }

  /** The batch loop of `copy_photos`, over the batches the traversal yields. */
  method CopyBatches(catalog: Catalog, batches: seq<seq<FileInfo>>, targetPath: string, sep: char)
    returns (messages: seq<string>, actions: seq<Action>)
    requires catalog.Valid()
    modifies catalog
    ensures catalog.Valid() && old(catalog.rows) <= catalog.rows
    ensures forall fi :: fi in Flatten(batches) && fi.capturedAt.Some? ==> HasSame(catalog.rows, fi)
    ensures (forall fi :: fi in Flatten(batches) ==> HasSame(old(catalog.rows), fi)) ==>
      catalog.rows == old(catalog.rows) && actions == []
    ensures Matches(actions, catalog.rows[|old(catalog.rows)|..], targetPath, sep)
    ensures Copies(old(catalog.rows), Flatten(batches), catalog.rows[|old(catalog.rows)|..], actions, targetPath, sep)
    ensures messages == Announced(Flatten(batches), "")
    ensures catalog.commits == old(catalog.commits) + |batches|
    ensures catalog.committed == if batches == [] then old(catalog.committed) else catalog.rows
  {
    ghost var rows0 := catalog.rows;
    ghost var known := forall fi :: fi in Flatten(batches) ==> HasSame(rows0, fi);
    var currentPath := "";
    messages, actions := [], [];
    for b := 0 to |batches|
      invariant catalog.Valid()
      invariant RunProgress(rows0, catalog.rows, actions, Flatten(batches[..b]), known, targetPath, sep)
      invariant messages == Announced(Flatten(batches[..b]), "") && currentPath == LastPath(Flatten(batches[..b]), "")
      invariant catalog.commits == old(catalog.commits) + b
      invariant catalog.committed == if b == 0 then old(catalog.committed) else catalog.rows
    {
      messages, actions, currentPath :=
        CopyNextBatch(catalog, batches, b, targetPath, sep, rows0, known, messages, actions, currentPath);
    }
    FlattenTakeAll(batches);
  }

  /** `CopyBatch` on the next batch, keeping the progress of the run. */
  method CopyNextBatch(catalog: Catalog, batches: seq<seq<FileInfo>>, b: nat, targetPath: string, sep: char,
                       ghost rows0: seq<FileInfo>, ghost known: bool,
                       messages0: seq<string>, actions0: seq<Action>, currentPath0: string)
    returns (messages: seq<string>, actions: seq<Action>, currentPath: string)
    requires catalog.Valid() && b < |batches|
    requires known ==> forall fi :: fi in Flatten(batches) ==> HasSame(rows0, fi)
    requires RunProgress(rows0, catalog.rows, actions0, Flatten(batches[..b]), known, targetPath, sep)
    requires messages0 == Announced(Flatten(batches[..b]), "") && currentPath0 == LastPath(Flatten(batches[..b]), "")
    modifies catalog
    ensures catalog.Valid()
    ensures RunProgress(rows0, catalog.rows, actions, Flatten(batches[..b + 1]), known, targetPath, sep)
    ensures messages == Announced(Flatten(batches[..b + 1]), "") && currentPath == LastPath(Flatten(batches[..b + 1]), "")
    ensures catalog.commits == old(catalog.commits) + 1 && catalog.committed == catalog.rows
  {
    var batch := batches[b];
    ghost var handled := Flatten(batches[..b]);
    FlattenTakeMore(batches, b);
    AnnouncedAppend(handled, batch, "");
    forall k | 0 <= k < |batch|
      ensures known ==> HasSame(rows0, batch[k])
    {
      InFlatten(batches, b, batch[k]);
    }
    ghost var before := catalog.rows;
    var more, moreActions;
    more, moreActions, currentPath := CopyBatch(catalog, batch, targetPath, sep, currentPath0);
    messages := messages0 + more;
    actions := actions0 + moreActions;
    RunStep(rows0, before, catalog.rows, actions0, moreActions, handled, batch, known, targetPath, sep);
  }

  /** What the batches handled so far have done, across the whole run. */
  ghost predicate RunProgress(rows0: seq<FileInfo>, rows: seq<FileInfo>, actions: seq<Action>,
                              done: seq<FileInfo>, known: bool, targetPath: string, sep: char)
  {
    && rows0 <= rows
    && (forall fi :: fi in done && fi.capturedAt.Some? ==> HasSame(rows, fi))
    && (known ==> rows == rows0 && actions == [])
    && Matches(actions, rows[|rows0|..], targetPath, sep)
    && Copies(rows0, done, rows[|rows0|..], actions, targetPath, sep)
  }

  /** One more batch handled by `CopyBatch` keeps the progress of the run. */
  lemma RunStep(rows0: seq<FileInfo>, before: seq<FileInfo>, after: seq<FileInfo>, done: seq<Action>,
                more: seq<Action>, handled: seq<FileInfo>, batch: seq<FileInfo>, known: bool,
                targetPath: string, sep: char)
    requires RunProgress(rows0, before, done, handled, known, targetPath, sep)
    requires before <= after
    requires forall k :: 0 <= k < |batch| && batch[k].capturedAt.Some? ==> HasSame(after, batch[k])
    requires known ==> forall k :: 0 <= k < |batch| ==> HasSame(rows0, batch[k])
    requires (forall k :: 0 <= k < |batch| ==> HasSame(before, batch[k])) ==> after == before && more == []
    requires Matches(more, after[|before|..], targetPath, sep)
    requires Copies(before, batch, after[|before|..], more, targetPath, sep)
    ensures RunProgress(rows0, after, done + more, handled + batch, known, targetPath, sep)
  {
    GainedSplit(rows0, before, after);
    assert rows0 + before[|rows0|..] == before;
    CopiesAppend(rows0, handled, batch, before[|rows0|..], after[|before|..], done, more, targetPath, sep);
    if known {
      assert done + more == done;
    } else {
      GainedSplit(rows0, before, after);
      MatchesAppend(done, before[|rows0|..], more, after[|before|..], targetPath, sep);
    }
    forall fi | fi in handled + batch && fi.capturedAt.Some?
      ensures HasSame(after, fi)
    {
      if fi in handled {
        HasSameGrows(before, after, fi);
      } else {
        var k :| 0 <= k < |batch| && batch[k] == fi;
      }
    }
  }

  // ---------------------------------------------------------------------
  // Reconciling the destination folder
  // ---------------------------------------------------------------------

  /** The partition a file found under the target path sits in: its directory relative to that path. */
  function RelativeTo(fi: FileInfo, targetPath: string, sep: char): string
    requires targetPath != []
  {
    GetRelativePath(fi.path, targetPath, sep).value
  }

  /** The row adopted for a file found under the target path: the record relocated to its partition. */
  function Adopted(fi: FileInfo, targetPath: string, sep: char): FileInfo
    requires targetPath != []
  {
    fi.(saveTo := RelativeTo(fi, targetPath, sep))
  }

  /** The catalog accounts for a file of the destination folder: a row sits at its place or has its content. */
  ghost predicate Reconciled(rows: seq<FileInfo>, fi: FileInfo, targetPath: string, sep: char)
    requires targetPath != []
  {
    HasKey(rows, RelativeTo(fi, targetPath, sep), fi.name) || HasSame(rows, fi)
  }

  lemma ReconciledGrows(rows: seq<FileInfo>, more: seq<FileInfo>, fi: FileInfo, targetPath: string, sep: char)
    requires targetPath != [] && rows <= more && Reconciled(rows, fi, targetPath, sep)
    ensures Reconciled(more, fi, targetPath, sep)
  {
    if HasSame(rows, fi) {
      HasSameGrows(rows, more, fi);
    } else {
      var x :| x in rows && x.saveTo == RelativeTo(fi, targetPath, sep) && x.name == fi.name;
      var i :| 0 <= i < |rows| && rows[i] == x;
      assert more[i] == x;
    }
  }

  /**
   * The loop body of `inspect_collected_files` for one record: nothing
   * happens when a row sits at its place or has its content; otherwise it is
   * registered at its place with a fresh id.
   */
  method InspectOne(catalog: Catalog, fi: FileInfo, targetPath: string, sep: char)
    requires catalog.Valid() && targetPath != []
    modifies catalog
    ensures catalog.Valid()
    ensures catalog.committed == old(catalog.committed) && catalog.commits == old(catalog.commits)
    ensures Reconciled(old(catalog.rows), fi, targetPath, sep) ==>
      catalog.rows == old(catalog.rows) && catalog.nextId == old(catalog.nextId)
    ensures !Reconciled(old(catalog.rows), fi, targetPath, sep) ==>
      catalog.rows == old(catalog.rows) + [Adopted(fi, targetPath, sep).(id := Some(old(catalog.nextId)))]
  {
    var saveTo := GetRelativePath(fi.path, targetPath, sep).value;
    if catalog.FindBySaveToName(saveTo, fi.name) == [] {
      var existing := catalog.FindSame(fi);
      if existing.None? {
        var adopted := fi.(saveTo := saveTo);
        assert forall x :: SameContent(x, adopted) == SameContent(x, fi);
        var outcome := catalog.Register(adopted);
        assert outcome.Pass?;
      }
    }
  }

  /**
   * What the first i records of a batch have done: the rows only grew,
   * every record is accounted for, nothing happened when all were already
   * accounted for, and each added row is an adopted record of the batch.
   */
  ghost predicate InspectProgress(rows0: seq<FileInfo>, rows: seq<FileInfo>, fileInfos: seq<FileInfo>, i: nat,
                                  known: bool, targetPath: string, sep: char)
    requires i <= |fileInfos| && targetPath != []
  {
    && rows0 <= rows
    && (forall k :: 0 <= k < i ==> Reconciled(rows, fileInfos[k], targetPath, sep))
    && (known ==> rows == rows0)
    && forall r :: r in rows[|rows0|..] ==> AdoptedFrom(r, fileInfos, targetPath, sep)
  }

  /** A row is one of the records, relocated to its partition, with an id of its own. */
  ghost predicate AdoptedFrom(r: FileInfo, fileInfos: seq<FileInfo>, targetPath: string, sep: char)
    requires targetPath != []
  {
    exists fi :: fi in fileInfos && r == Adopted(fi, targetPath, sep).(id := r.id)
  }

  lemma AdoptedFromMore(r: FileInfo, fileInfos: seq<FileInfo>, more: seq<FileInfo>, targetPath: string, sep: char)
    requires targetPath != [] && AdoptedFrom(r, fileInfos, targetPath, sep)
    requires forall fi :: fi in fileInfos ==> fi in more
    ensures AdoptedFrom(r, more, targetPath, sep)
  {
    var fi :| fi in fileInfos && r == Adopted(fi, targetPath, sep).(id := r.id);
    assert fi in more;
  }

  /** One more record handled by `InspectOne` keeps the progress of its batch. */
  lemma InspectStep(rows0: seq<FileInfo>, before: seq<FileInfo>, after: seq<FileInfo>, nextId: nat,
                    fileInfos: seq<FileInfo>, i: nat, known: bool, targetPath: string, sep: char)
    requires i < |fileInfos| && targetPath != []
    requires InspectProgress(rows0, before, fileInfos, i, known, targetPath, sep)
    requires known ==> Reconciled(rows0, fileInfos[i], targetPath, sep)
    requires Reconciled(before, fileInfos[i], targetPath, sep) ==> after == before
    requires !Reconciled(before, fileInfos[i], targetPath, sep) ==>
      after == before + [Adopted(fileInfos[i], targetPath, sep).(id := Some(nextId))]
    ensures InspectProgress(rows0, after, fileInfos, i + 1, known, targetPath, sep)
  {
    var fi := fileInfos[i];
    if !Reconciled(before, fi, targetPath, sep) {
      var row := after[|before|];
      assert row in after && row.saveTo == RelativeTo(fi, targetPath, sep) && row.name == fi.name;
      assert after[|rows0|..] == before[|rows0|..] + [row];
      assert AdoptedFrom(row, fileInfos, targetPath, sep);
    }
    forall k | 0 <= k < i
      ensures Reconciled(after, fileInfos[k], targetPath, sep)
    {
      ReconciledGrows(before, after, fileInfos[k], targetPath, sep);
    }
  }

  /** One batch of `inspect_collected_files`. */
  method InspectBatch(catalog: Catalog, fileInfos: seq<FileInfo>, targetPath: string, sep: char)
    requires catalog.Valid() && targetPath != []
    modifies catalog
    ensures catalog.Valid()
    ensures catalog.committed == old(catalog.committed) && catalog.commits == old(catalog.commits)
    ensures InspectProgress(old(catalog.rows), catalog.rows, fileInfos, |fileInfos|,
                            forall k :: 0 <= k < |fileInfos| ==> Reconciled(old(catalog.rows), fileInfos[k], targetPath, sep),
                            targetPath, sep)
  {
    ghost var rows0 := catalog.rows;
    ghost var known := forall k :: 0 <= k < |fileInfos| ==> Reconciled(rows0, fileInfos[k], targetPath, sep);
    for i := 0 to |fileInfos|
      invariant catalog.Valid()
      invariant InspectProgress(rows0, catalog.rows, fileInfos, i, known, targetPath, sep)
      invariant catalog.committed == old(catalog.committed) && catalog.commits == old(catalog.commits)
    {
      ghost var before, nextId := catalog.rows, catalog.nextId;
      InspectOne(catalog, fileInfos[i], targetPath, sep);
      InspectStep(rows0, before, catalog.rows, nextId, fileInfos, i, known, targetPath, sep);
    }
  }

  /**
   * `inspect_collected_files(target_path)`: the records of the destination
   * volume in batches of 1000, each registered at its place unless the
   * catalog already accounts for it; nothing is committed here. Afterwards
   * every file of the destination is accounted for, the rows only grew, and
   * each new row is one of those files relocated to its partition.
   */
  method InspectCollectedFiles(catalog: Catalog, target: Volume, targetPath: string, pf: Platform)
    requires catalog.Valid() && targetPath != []
    modifies catalog
    ensures catalog.Valid() && old(catalog.rows) <= catalog.rows
    ensures catalog.committed == old(catalog.committed) && catalog.commits == old(catalog.commits)
    ensures forall fi :: fi in AllInfos(target, pf) ==> Reconciled(catalog.rows, fi, targetPath, pf.sep)
    ensures (forall fi :: fi in AllInfos(target, pf) ==> Reconciled(old(catalog.rows), fi, targetPath, pf.sep)) ==>
      catalog.rows == old(catalog.rows)
    ensures forall r :: r in catalog.rows[|old(catalog.rows)|..] ==> AdoptedFrom(r, AllInfos(target, pf), targetPath, pf.sep)
  {
    var batches := ReadAllFiles(target, InspectBatchSize, pf);
    InspectBatches(catalog, batches, targetPath, pf.sep);
  }

  /** The batch loop of `inspect_collected_files`, over the batches the traversal yields. */
  method InspectBatches(catalog: Catalog, batches: seq<seq<FileInfo>>, targetPath: string, sep: char)
    requires catalog.Valid() && targetPath != []
    modifies catalog
    ensures catalog.Valid()
    ensures catalog.committed == old(catalog.committed) && catalog.commits == old(catalog.commits)
    ensures InspectRunProgress(old(catalog.rows), catalog.rows, Flatten(batches), Flatten(batches),
                               forall fi :: fi in Flatten(batches) ==> Reconciled(old(catalog.rows), fi, targetPath, sep),
                               targetPath, sep)
  {
    ghost var rows0 := catalog.rows;
    ghost var known := forall fi :: fi in Flatten(batches) ==> Reconciled(rows0, fi, targetPath, sep);
    for b := 0 to |batches|
      invariant catalog.Valid()
      invariant catalog.committed == old(catalog.committed) && catalog.commits == old(catalog.commits)
      invariant InspectRunProgress(rows0, catalog.rows, Flatten(batches[..b]), Flatten(batches), known, targetPath, sep)
    {
      InspectNextBatch(catalog, batches, b, targetPath, sep, rows0, known);
    }
    FlattenTakeAll(batches);
  }

  /**
   * What the batches handled so far have done, across the whole pass: the
   * rows only grew, every handled record is accounted for, nothing happened
   * when every record was already accounted for, and each new row is one of
   * the records relocated.
   */
  ghost predicate InspectRunProgress(rows0: seq<FileInfo>, rows: seq<FileInfo>, handled: seq<FileInfo>,
                                     all: seq<FileInfo>, known: bool, targetPath: string, sep: char)
    requires targetPath != []
  {
    && rows0 <= rows
    && (forall fi :: fi in handled ==> Reconciled(rows, fi, targetPath, sep))
    && (known ==> rows == rows0)
    && forall r :: r in rows[|rows0|..] ==> AdoptedFrom(r, all, targetPath, sep)
  }

  /** `InspectBatch` on the next batch, keeping the progress of the pass. */
  method InspectNextBatch(catalog: Catalog, batches: seq<seq<FileInfo>>, b: nat, targetPath: string, sep: char,
                          ghost rows0: seq<FileInfo>, ghost known: bool)
    requires catalog.Valid() && targetPath != [] && b < |batches|
    requires known ==> forall fi :: fi in Flatten(batches) ==> Reconciled(rows0, fi, targetPath, sep)
    requires InspectRunProgress(rows0, catalog.rows, Flatten(batches[..b]), Flatten(batches), known, targetPath, sep)
    modifies catalog
    ensures catalog.Valid()
    ensures catalog.committed == old(catalog.committed) && catalog.commits == old(catalog.commits)
    ensures InspectRunProgress(rows0, catalog.rows, Flatten(batches[..b + 1]), Flatten(batches), known, targetPath, sep)
  {
    var batch := batches[b];
    FlattenTakeMore(batches, b);
    forall k | 0 <= k < |batch|
      ensures batch[k] in Flatten(batches)
    {
      InFlatten(batches, b, batch[k]);
    }
    ghost var before := catalog.rows;
    InspectBatch(catalog, batch, targetPath, sep);
    InspectRunStep(rows0, before, catalog.rows, Flatten(batches[..b]), batch, Flatten(batches), known, targetPath, sep);
  }

  /** One more batch handled by `InspectBatch` keeps the progress of the whole pass. */
  lemma InspectRunStep(rows0: seq<FileInfo>, before: seq<FileInfo>, after: seq<FileInfo>,
                       handled: seq<FileInfo>, batch: seq<FileInfo>, all: seq<FileInfo>, known: bool,
                       targetPath: string, sep: char)
    requires targetPath != []
    requires InspectRunProgress(rows0, before, handled, all, known, targetPath, sep)
    requires forall k :: 0 <= k < |batch| ==> batch[k] in all
    requires known ==> forall k :: 0 <= k < |batch| ==> Reconciled(rows0, batch[k], targetPath, sep)
    requires InspectProgress(before, after, batch, |batch|,
                             forall k :: 0 <= k < |batch| ==> Reconciled(before, batch[k], targetPath, sep),
                             targetPath, sep)
    ensures InspectRunProgress(rows0, after, handled + batch, all, known, targetPath, sep)
  {
    GainedSplit(rows0, before, after);
    forall r | r in after[|rows0|..]
      ensures AdoptedFrom(r, all, targetPath, sep)
    {
      if r !in before[|rows0|..] {
        AdoptedFromMore(r, batch, all, targetPath, sep);
      }
    }
    forall fi | fi in handled + batch
      ensures Reconciled(after, fi, targetPath, sep)
    {
      if fi in handled {
        ReconciledGrows(before, after, fi, targetPath, sep);
      } else {
        var k :| 0 <= k < |batch| && batch[k] == fi;
      }
    }
  }

  // ---------------------------------------------------------------------
  // A whole run
  // ---------------------------------------------------------------------

  /**
   * The work of `collect_photos`: with a source or target path missing
   * nothing happens; otherwise the destination folder is reconciled with
   * the catalog, then the source folder is copied into it. Afterwards every
   * destination file is accounted for and every source file has a row of its
   * content; a run with nothing new to account for or copy changes nothing.
   * `inspected` is the catalog between reconciliation and copying: the rows
   * reconciliation adds are relocated destination files, and the rows and
   * actions copying adds are what copying the source records in order adds.
   */
  method CollectPhotos(catalog: Catalog, sourcePath: string, targetPath: string, source: Volume, target: Volume,
                       pf: Platform)
    returns (messages: seq<string>, actions: seq<Action>, ghost inspected: seq<FileInfo>)
    requires catalog.Valid()
    modifies catalog
    ensures catalog.Valid() && old(catalog.rows) <= inspected <= catalog.rows
    ensures sourcePath == [] || targetPath == [] ==>
      catalog.rows == old(catalog.rows) && catalog.commits == old(catalog.commits) && messages == [] && actions == []
    ensures sourcePath != [] && targetPath != [] ==>
      && (forall fi :: fi in AllInfos(target, pf) ==> Reconciled(catalog.rows, fi, targetPath, pf.sep))
      && (forall fi :: fi in AllInfos(source, pf) ==> HasSame(catalog.rows, fi))
      && messages == Announced(AllInfos(source, pf), "")
      && (forall r :: r in inspected[|old(catalog.rows)|..] ==> AdoptedFrom(r, AllInfos(target, pf), targetPath, pf.sep))
      && Copies(inspected, AllInfos(source, pf), catalog.rows[|inspected|..], actions, targetPath, pf.sep)
    ensures (&& sourcePath != [] && targetPath != []
             && (forall fi :: fi in AllInfos(target, pf) ==> Reconciled(old(catalog.rows), fi, targetPath, pf.sep))
             && (forall fi :: fi in AllInfos(source, pf) ==> HasSame(old(catalog.rows), fi))) ==>
      catalog.rows == old(catalog.rows) && actions == []
  {
    messages, actions, inspected := [], [], catalog.rows;
    if sourcePath == [] || targetPath == [] {
      return;
    }
    InspectCollectedFiles(catalog, target, targetPath, pf);
    inspected := catalog.rows;
    messages, actions := CopyPhotos(catalog, source, targetPath, pf);
    forall fi | fi in AllInfos(target, pf)
      ensures Reconciled(catalog.rows, fi, targetPath, pf.sep)
    {
      ReconciledGrows(inspected, catalog.rows, fi, targetPath, pf.sep);
    }
  }

  /**
   * Two runs over the same source and destination: the second finds every
   * file accounted for and every photo's content known, so it copies and
   * registers nothing. `mid` is the catalog between the two runs.
   */
  method CollectTwice(catalog: Catalog, sourcePath: string, targetPath: string, source: Volume, target: Volume,
                      pf: Platform)
    returns (first: seq<Action>, second: seq<Action>, ghost mid: seq<FileInfo>)
    requires catalog.Valid()
    modifies catalog
    ensures catalog.Valid() && old(catalog.rows) <= mid
    ensures second == [] && catalog.rows == mid
  {
    var messages;
    ghost var inspected;
    messages, first, inspected := CollectPhotos(catalog, sourcePath, targetPath, source, target, pf);
    mid := catalog.rows;
    messages, second, inspected := CollectPhotos(catalog, sourcePath, targetPath, source, target, pf);
  }
}
