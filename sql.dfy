/**
 * The catalog of the photo engine (busker/photo/sql.py): the textual
 * parameter substitution used for logging, and the `file_info` table as an
 * in-memory relation with its two uniqueness constraints, its lookups, its
 * count, its insert and its commit.
 */
module PhotoSql {
  import opened Results
  import opened PyText
  import opened Clock
  import opened FileInfos
  import opened Seqs

  /** The kinds of query parameter `parameterize_query` distinguishes. */
  datatype SqlValue =
    | DateTimeValue(dt: DateTime)
    | DateValue(year: nat, month: nat, day: nat)
    | Number(n: int)
    | Text(s: string)
    | Null

  function Date(year: nat, month: nat, day: nat): string
  {
    ZFill(year, 4) + "/" + ZFill(month, 2) + "/" + ZFill(day, 2)
  }

  function Time(hour: nat, minute: nat, second: nat): string
  {
    ZFill(hour, 2) + ":" + ZFill(minute, 2) + ":" + ZFill(second, 2)
  }

  /**
   * How one parameter is written into the query: datetimes and dates
   * quoted as `YYYY/MM/DD[ HH:MM:SS]`, numbers with `str`, other truthy
   * values quoted verbatim, falsy ones as NULL.
   */
  function Render(v: SqlValue): string
  {
    match v
    case DateTimeValue(dt) => "'" + Date(dt.year, dt.month, dt.day) + " " + Time(dt.hour, dt.minute, dt.second) + "'"
    case DateValue(y, m, d) => "'" + Date(y, m, d) + "'"
    case Number(n) => IntToString(n)
    case Text(s) => if s != [] then "'" + s + "'" else "NULL"
    case Null => "NULL"
  }

  /** Numbers are written in decimal, zero included; non-negative ones read back as themselves. */
  lemma RenderNumber(n: nat)
    ensures AllDigits(Render(Number(n))) && Value(Render(Number(n))) == n
    ensures n == 0 ==> Render(Number(n)) == "0"
  {
    ValueOfDigits(n);
  }

  /** A non-empty text is quoted verbatim, without escaping; an empty one is NULL like None. */
  lemma RenderText(s: string)
    ensures s != [] ==> |Render(Text(s))| == |s| + 2 && Render(Text(s))[1..|s| + 1] == s
    ensures s == [] ==> Render(Text(s)) == Render(Null)
  {
    if s != [] {
      assert Render(Text(s)) == "'" + s + "'";
    }
  }

  /**
   * A date is written `YYYY/MM/DD`: ten characters whose year, month and day
   * read back (for years below 10000, as Python dates are).
   */
  lemma DateFields(year: nat, month: nat, day: nat)
    requires year < 10000 && month < 100 && day < 100
    ensures var s := Date(year, month, day);
      && |s| == 10 && s[4] == '/' && s[7] == '/'
      && AllDigits(s[..4]) && Value(s[..4]) == year
      && AllDigits(s[5..7]) && Value(s[5..7]) == month
      && AllDigits(s[8..]) && Value(s[8..]) == day
  {
    var s := Date(year, month, day);
    ZFillExactWidth(year, 4);
    ZFillExactWidth(month, 2);
    ZFillExactWidth(day, 2);
    assert s[..4] == ZFill(year, 4);
    assert s[5..7] == ZFill(month, 2);
    assert s[8..] == ZFill(day, 2);
    ZFillValue(year, 4);
    ZFillValue(month, 2);
    ZFillValue(day, 2);
  }

  /** A date parameter is written quoted, `'YYYY/MM/DD'`, with its fields readable back. */
  lemma RenderDate(year: nat, month: nat, day: nat)
    requires year < 10000 && month < 100 && day < 100
    ensures var s := Render(DateValue(year, month, day));
      && |s| == 12 && s[0] == '\'' && s[11] == '\'' && s[1..11] == Date(year, month, day)
  {
    DateFields(year, month, day);
  }

  /** A time of day is written `HH:MM:SS`: eight characters whose fields read back. */
  lemma TimeFields(hour: nat, minute: nat, second: nat)
    requires hour < 100 && minute < 100 && second < 100
    ensures var s := Time(hour, minute, second);
      && |s| == 8 && s[2] == ':' && s[5] == ':'
      && AllDigits(s[..2]) && Value(s[..2]) == hour
      && AllDigits(s[3..5]) && Value(s[3..5]) == minute
      && AllDigits(s[6..]) && Value(s[6..]) == second
  {
    var s := Time(hour, minute, second);
    ZFillExactWidth(hour, 2);
    ZFillExactWidth(minute, 2);
    ZFillExactWidth(second, 2);
    assert s[..2] == ZFill(hour, 2);
    assert s[3..5] == ZFill(minute, 2);
    assert s[6..] == ZFill(second, 2);
    ZFillValue(hour, 2);
    ZFillValue(minute, 2);
    ZFillValue(second, 2);
  }

  /**
   * A datetime parameter is written quoted, `'YYYY/MM/DD HH:MM:SS'`: the
   * date, a space and the time of day, each readable back through
   * `DateFields` and `TimeFields`; microseconds are dropped.
   */
  lemma RenderDateTime(dt: DateTime)
    requires ValidDateTime(dt)
    ensures var s := Render(DateTimeValue(dt));
      && |s| == 21 && s[0] == '\'' && s[20] == '\''
      && s[1..11] == Date(dt.year, dt.month, dt.day) && s[11] == ' '
      && s[12..20] == Time(dt.hour, dt.minute, dt.second)
  {
    var date, time := Date(dt.year, dt.month, dt.day), Time(dt.hour, dt.minute, dt.second);
    ZFillExactWidth(dt.year, 4);
    ZFillExactWidth(dt.month, 2);
    ZFillExactWidth(dt.day, 2);
    ZFillExactWidth(dt.hour, 2);
    ZFillExactWidth(dt.minute, 2);
    ZFillExactWidth(dt.second, 2);
    assert |date| == 10 && |time| == 8;
    Framed('\'', date, ' ', time);
  }

  /** The number of question marks in a string. */
  function Marks(s: string): nat
  {
    if s == [] then 0 else Marks(s[..|s| - 1]) + (if s[|s| - 1] == '?' then 1 else 0)
  }

  lemma {:induction false} MarksAppend(a: string, b: string)
    ensures Marks(a + b) == Marks(a) + Marks(b)
    decreases |b|
  {
    if b == [] {
      assert a + b == a;
    } else {
      assert (a + b)[..|a + b| - 1] == a + b[..|b| - 1];
      MarksAppend(a, b[..|b| - 1]);
    }
  }

  lemma {:induction false} NoMarks(s: string)
    requires '?' !in s
    ensures Marks(s) == 0
    decreases |s|
  {
    if s != [] {
      NoMarks(s[..|s| - 1]);
    }
  }

  /** One round of the loop: the first `?` of the current query, if any, becomes the rendered parameter. */
  function Substitute(query: string, v: SqlValue): string
  {
    var i := Find(query, '?');
    if i < 0 then query else query[..i] + Render(v) + query[i + 1..]
  }

  /** A round consumes one mark, if there is one, and adds the marks of the rendered value. */
  lemma SubstituteMarks(query: string, v: SqlValue)
    ensures Marks(Substitute(query, v))
         == if Marks(query) == 0 then 0 else Marks(query) - 1 + Marks(Render(v))
  {
    var i := Find(query, '?');
    if i < 0 {
      NoMarks(query);
    } else {
      var prefix, suffix, rendered := query[..i], query[i + 1..], Render(v);
      assert query == prefix + "?" + suffix;
      NoMarks(prefix);
      assert Marks("?") == 1;
      SpliceMarks(prefix, "?", suffix);
      SpliceMarks(prefix, rendered, suffix);
    }
  }

  lemma SpliceMarks(prefix: string, mid: string, suffix: string)
    ensures Marks(prefix + mid + suffix) == Marks(prefix) + Marks(mid) + Marks(suffix)
  {
    MarksAppend(prefix + mid, suffix);
    MarksAppend(prefix, mid);
  }

  /** The query after substituting the parameters one after the other. */
  function SubstituteAll(query: string, parameters: seq<SqlValue>): string
  {
    if parameters == [] then query
    else Substitute(SubstituteAll(query, parameters[..|parameters| - 1]), parameters[|parameters| - 1])
  }

  /**
   * When no rendered parameter contains `?`, each parameter consumes one
   * mark while marks remain: q marks and p parameters leave max(0, q - p).
   */
  lemma {:induction false} MarksAfterSubstitution(query: string, parameters: seq<SqlValue>)
    requires forall k :: 0 <= k < |parameters| ==> '?' !in Render(parameters[k])
    ensures Marks(SubstituteAll(query, parameters))
         == if Marks(query) >= |parameters| then Marks(query) - |parameters| else 0
    decreases |parameters|
  {
    if parameters != [] {
      var last := parameters[|parameters| - 1];
      MarksAfterSubstitution(query, parameters[..|parameters| - 1]);
      SubstituteMarks(SubstituteAll(query, parameters[..|parameters| - 1]), last);
      NoMarks(Render(last));
    }
  }

  /** A parameter rendered with a `?` in it feeds that mark to the next parameter. */
  lemma RenderedMarkIsConsumed()
    ensures SubstituteAll("? ?", [Text("?"), Text("x")]) == "''x'' ?"
  {
    assert Substitute("? ?", Text("?")) == "'?' ?";
    assert Substitute("'?' ?", Text("x")) == "''x'' ?";
  }

  /** One more parameter substitutes into the query the earlier ones left. */
  lemma SubstituteAllNext(query: string, ps: seq<SqlValue>, k: nat)
    requires k < |ps|
    ensures SubstituteAll(query, ps[..k + 1]) == Substitute(SubstituteAll(query, ps[..k]), ps[k])
  {
    assert ps[..k + 1][..k] == ps[..k];
  }

  /** The first mark is the one after a mark-free prefix: the parameter goes there. */
  lemma SubstituteFirst(prefix: string, suffix: string, v: SqlValue)
    requires '?' !in prefix
    ensures Substitute(prefix + ("?" + suffix), v) == prefix + (Render(v) + suffix)
  {
    var q := prefix + ("?" + suffix);
    assert q[|prefix|] == '?';
    assert forall i :: 0 <= i < |prefix| ==> q[i] == prefix[i];
    assert Find(q, '?') == |prefix|;
    assert q[..|prefix|] == prefix && q[|prefix| + 1..] == suffix;
    Associative(prefix, Render(v), suffix);
  }

  /** After a mark-free prefix and rendered text, the next mark takes the parameter. */
  lemma SubstituteAfter(p: string, r: string, b: string, t: string, v: SqlValue)
    requires '?' !in p && '?' !in r && '?' !in b
    ensures Substitute(p + (r + (b + ("?" + t))), v) == (p + (r + b)) + (Render(v) + t)
  {
    Regroup(p, r, b, "?" + t);
    SubstituteFirst(p + (r + b), t, v);
  }

  /** Three parameters are substituted one after the other. */
  lemma SubstituteAllThree(q: string, x: SqlValue, y: SqlValue, z: SqlValue)
    ensures SubstituteAll(q, [x, y, z]) == Substitute(Substitute(Substitute(q, x), y), z)
  {
    var ps := [x, y, z];
    SubstituteAllNext(q, ps, 0);
    SubstituteAllNext(q, ps, 1);
    SubstituteAllNext(q, ps, 2);
    assert ps[..0] == [] && ps[..3] == ps;
  }

  /**
   * Three marks between mark-free pieces take three parameters in order,
   * provided no rendered parameter brings a mark of its own, as in
   * `UPDATE table SET column1 = ?, column2 = ? WHERE id = ?`.
   */
  lemma SubstituteThree(a: string, b: string, c: string, d: string, x: SqlValue, y: SqlValue, z: SqlValue)
    requires '?' !in a && '?' !in b && '?' !in c
    requires '?' !in Render(x) && '?' !in Render(y)
    ensures SubstituteAll(a + ("?" + (b + ("?" + (c + ("?" + d))))), [x, y, z])
         == ((a + (Render(x) + b)) + (Render(y) + c)) + (Render(z) + d)
  {
    SubstituteAllThree(a + ("?" + (b + ("?" + (c + ("?" + d))))), x, y, z);
    SubstituteFirst(a, b + ("?" + (c + ("?" + d))), x);
    SubstituteAfter(a, Render(x), b, c + ("?" + d), y);
    SubstituteAfter(a + (Render(x) + b), Render(y), c, d, z);
  }

  /** The fields of the sample date and time of the tests, zero-padded. */
  lemma SampleFields()
    ensures ZFill(2023, 4) == "2023" && ZFill(1, 2) == "01" && ZFill(15, 2) == "15"
    ensures ZFill(12, 2) == "12" && ZFill(30, 2) == "30" && ZFill(0, 2) == "00"
  {
    assert Digits(20) == "20" && Digits(202) == "202";
    assert Zeros(1) == "0";
  }

  /** The date of the tests, without quotes, is `2023/01/15`. */
  lemma SampleDate()
    ensures Date(2023, 1, 15) == "2023/01/15"
  {
    SampleFields();
  }

  /** The date of the tests is written `'2023/01/15'`. */
  lemma SampleRenderDate()
    ensures Render(DateValue(2023, 1, 15)) == "'2023/01/15'"
  {
    SampleDate();
  }

  /** The time of day of the tests is written `12:30:00`. */
  lemma SampleTime()
    ensures Time(12, 30, 0) == "12:30:00"
  {
    SampleFields();
  }

  /** The datetime of the tests is written `'2023/01/15 12:30:00'`. */
  lemma SampleRenderDateTime()
    ensures Render(DateTimeValue(DateTime(2023, 1, 15, 12, 30, 0, 0))) == "'2023/01/15 12:30:00'"
  {
    SampleDate();
    SampleTime();
    assert "'" + "2023/01/15" + " " + "12:30:00" + "'" == "'2023/01/15 12:30:00'";
  }

  /**
   * `parameterize_query(query, parameters)`: None leaves the query as it is;
   * otherwise each parameter in turn replaces the first `?` of the current
   * query, or is dropped when none is left.
   */
  method ParameterizeQuery(query: string, parameters: Option<seq<SqlValue>>) returns (r: string)
    ensures parameters.None? ==> r == query
    ensures parameters.Some? ==> r == SubstituteAll(query, parameters.value)
  {
    r := query;
    if parameters.None? {
      return;
    }
    var ps := parameters.value;
    for k := 0 to |ps|
      invariant r == SubstituteAll(query, ps[..k])
    {
      SubstituteAllNext(query, ps, k);
      ghost var before := r;
      var index := Find(r, '?');
      if index != -1 {
        var parameter := Render(ps[k]);
        var prefix := r[..index];
        var suffix := r[index + 1..];
        r := prefix + parameter + suffix;
      }
      assert r == Substitute(before, ps[k]);
    }
    assert ps[..|ps|] == ps;
  }

  /** The `(save_to, name)` constraint: same destination folder and name. */
  predicate SameKey(a: FileInfo, b: FileInfo)
  {
    a.saveTo == b.saveTo && a.name == b.name
  }

  /**
   * SQL `=` on size, hash and captured_at: a NULL capture time equals
   * nothing, which is also how the `(size, hash, captured_at)` constraint
   * treats it.
   */
  predicate SameContent(a: FileInfo, b: FileInfo)
  {
    && a.size == b.size && a.hash == b.hash
    && a.capturedAt.Some? && b.capturedAt.Some? && a.capturedAt.value == b.capturedAt.value
  }

  /** Two rows that no table can hold together. */
  predicate Clash(a: FileInfo, b: FileInfo)
  {
    SameKey(a, b) || SameContent(a, b)
  }

  /** Both uniqueness constraints of the table. */
  ghost predicate Unique(rows: seq<FileInfo>)
  {
    forall i, j :: 0 <= i < j < |rows| ==> !Clash(rows[i], rows[j])
  }

  ghost predicate HasKey(rows: seq<FileInfo>, saveTo: string, name: string)
  {
    exists x :: x in rows && x.saveTo == saveTo && x.name == name
  }

  ghost predicate HasSame(rows: seq<FileInfo>, fi: FileInfo)
  {
    exists x :: x in rows && SameContent(x, fi)
  }

  /** The rows at a destination folder and name, in table order. */
  function SelectByKey(rows: seq<FileInfo>, saveTo: string, name: string): (r: seq<FileInfo>)
    ensures forall x :: x in r <==> x in rows && x.saveTo == saveTo && x.name == name
    ensures r == [] <==> !HasKey(rows, saveTo, name)
  {
    if rows == [] then []
    else
      var last := rows[|rows| - 1];
      var init := SelectByKey(rows[..|rows| - 1], saveTo, name);
      assert forall x :: x in rows <==> x in rows[..|rows| - 1] || x == last;
      if last.saveTo == saveTo && last.name == name then init + [last] else init
  }

  /** Under the constraints at most one row sits at a destination folder and name. */
  lemma {:induction false} AtMostOneAtKey(rows: seq<FileInfo>, saveTo: string, name: string)
    ensures Unique(rows) ==> |SelectByKey(rows, saveTo, name)| <= 1
  {
    if rows != [] && Unique(rows) {
      var init := rows[..|rows| - 1];
      var last := rows[|rows| - 1];
      AtMostOneAtKey(init, saveTo, name);
      if last.saveTo == saveTo && last.name == name {
        forall x | x in init
          ensures !(x.saveTo == saveTo && x.name == name)
        {
          var i :| 0 <= i < |init| && init[i] == x;
          assert !Clash(rows[i], rows[|rows| - 1]);
        }
      }
    }
  }

  /** The first row with the same content as fi, if any. */
  function FirstSame(rows: seq<FileInfo>, fi: FileInfo): (r: Option<FileInfo>)
    ensures r.Some? ==> r.value in rows && SameContent(r.value, fi)
    ensures r.None? <==> !HasSame(rows, fi)
  {
    if rows == [] then None
    else if SameContent(rows[0], fi) then Some(rows[0])
    else
      var r := FirstSame(rows[1..], fi);
      assert forall x :: x in rows <==> x == rows[0] || x in rows[1..];
      r
  }

  /** A row inserted into the table must clash with no existing row. */
  lemma InsertKeepsUnique(rows: seq<FileInfo>, fi: FileInfo)
    requires Unique(rows)
    requires !HasKey(rows, fi.saveTo, fi.name) && !HasSame(rows, fi)
    ensures Unique(rows + [fi])
  {
    var rs := rows + [fi];
    forall i, j | 0 <= i < j < |rs|
      ensures !Clash(rs[i], rs[j])
    {
      if j == |rows| {
        assert rs[i] in rows;
      }
    }
  }

  /** The `file_info` table of one SQLite connection. */
  class Catalog {
    /** The rows in insertion order, each with its id. */
    var rows: seq<FileInfo>
    /** The next AUTOINCREMENT id. */
    var nextId: nat
    /** The rows as of the last commit. */
    var committed: seq<FileInfo>
    /** How many times the connection committed. */
    var commits: nat

    /** Both constraints hold; ids are assigned, increasing and below nextId. */
    ghost predicate Valid()
      reads this
    {
      && Unique(rows)
      && (forall i :: 0 <= i < |rows| ==> rows[i].id.Some? && rows[i].id.value < nextId)
      && (forall i, j :: 0 <= i < j < |rows| ==> rows[i].id.value < rows[j].id.value)
    }

    /** `create_table_file_info` on a fresh database. */
    constructor ()
      ensures Valid() && rows == [] && committed == [] && commits == 0
    {
      rows := [];
      nextId := 1;
      committed := [];
      commits := 0;
    }

    /** `get_count`. */
    function Count(): (n: nat)
      reads this
      ensures n == |rows|
    {
      |rows|
    }

    /** `get_file_by_save_to__name`: the rows at that destination folder and name, or []. */
    function FindBySaveToName(saveTo: string, name: string): (r: seq<FileInfo>)
      reads this
      ensures forall x :: x in r <==> x in rows && x.saveTo == saveTo && x.name == name
      ensures r == [] <==> !HasKey(rows, saveTo, name)
      ensures Valid() ==> |r| <= 1
    {
      AtMostOneAtKey(rows, saveTo, name);
      SelectByKey(rows, saveTo, name)
    }

    /**
     * `get_same_file`: some row equal to fi on size, hash and capture time,
     * or None; a record without capture time matches nothing.
     */
    function FindSame(fi: FileInfo): (r: Option<FileInfo>)
      reads this
      ensures r.Some? ==> r.value in rows && SameContent(r.value, fi)
      ensures r.None? <==> !HasSame(rows, fi)
      ensures fi.capturedAt.None? ==> r.None?
    {
      FirstSame(rows, fi)
    }

    /**
     * `register_file_info`: the insert fails exactly when a row already
     * sits at fi's folder and name or has fi's content; otherwise one row
     * with fi's fields and a fresh id, above every earlier id, is appended.
     */
    method Register(fi: FileInfo) returns (outcome: Outcome<DbError>)
      requires Valid()
      modifies this
      ensures Valid()
      ensures outcome.Pass? <==> old(FindBySaveToName(fi.saveTo, fi.name)) == [] && old(FindSame(fi)).None?
      ensures outcome.Pass? ==>
        rows == old(rows) + [fi.(id := Some(old(nextId)))] && Count() == old(Count()) + 1 && nextId > old(nextId)
      ensures outcome.Fail? ==> rows == old(rows) && nextId == old(nextId)
      ensures committed == old(committed) && commits == old(commits)
    {
      if FindBySaveToName(fi.saveTo, fi.name) != [] || FindSame(fi).Some? {
        return Fail(UniqueViolation);
      }
      var row := fi.(id := Some(nextId));
      assert !HasKey(rows, row.saveTo, row.name);
      assert forall x :: SameContent(x, row) == SameContent(x, fi);
      InsertKeepsUnique(rows, row);
      rows := rows + [row];
      nextId := nextId + 1;
      outcome := Pass;
    }

    /** `conn.commit()`: everything registered so far becomes durable. */
    method Commit()
      modifies this
      ensures committed == rows && commits == old(commits) + 1
      ensures rows == old(rows) && nextId == old(nextId)
    {
      committed := rows;
      commits := commits + 1;
    }
  }
}
