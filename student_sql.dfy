/** The `students` table of the raw-SQL Flask app (part-2/app.py): a
    validated insert, an unvalidated update, a silent delete, the newest-first
    listing and the search by name. */
module StudentSql {
  import opened Common
  import opened Text
  import opened Tables

  /** A row of `students`: every column is TEXT NOT NULL. */
  datatype Row = Row(name: string, email: string, course: string)

  /** A row as a listing shows it, with its id. */
  datatype Entry = Entry(id: int, row: Row)

  /** `SELECT id FROM students WHERE email = ?` finds a row. */
  predicate EmailTaken(rows: map<int, Row>, email: string) {
    exists k :: k in rows && rows[k].email == email
  }

  ghost predicate EmailsUnique(rows: map<int, Row>) {
    forall i, j :: i in rows && j in rows && i != j ==> rows[i].email != rows[j].email
  }

  /** The crude email check: an '@' and a '.' somewhere, in either order. */
  predicate EmailShaped(email: string) {
    '@' in email && '.' in email
  }

  /** The guards of `add_student`, in the order it checks them, applied to the
      stripped name, email and course. */
  function AddGuards(name: string, email: string, course: string, rows: map<int, Row>): seq<Guard> {
    [ Guard(name != "" && email != "" && course != "", MissingField),
      Guard(|name| >= 2, InvalidName),
      Guard(EmailShaped(email), InvalidEmail),
      Guard(!EmailTaken(rows, email), Duplicate) ]
  }

  /** What `add_student` reports for the raw form values. */
  function AddVerdict(name: string, email: string, course: string, rows: map<int, Row>): Outcome {
    FirstFailure(AddGuards(Strip(name), Strip(email), Strip(course), rows))
  }

  /** The row `add_student` stores for the raw form values. */
  function AddedRow(name: string, email: string, course: string): Row {
    Row(Strip(name), Strip(email), Strip(course))
  }

  /** A row that passes every rule of `add_student`. */
  ghost predicate Acceptable(r: Row) {
    && Trimmed(r.name) && Trimmed(r.email) && Trimmed(r.course)
    && r.name != "" && r.email != "" && r.course != ""
    && |r.name| >= 2 && EmailShaped(r.email)
  }

  /** Every row `add_student` accepts is trimmed, complete, has a name of two
      or more characters and an email holding '@' and '.'. */
  lemma AddedRowAcceptable(name: string, email: string, course: string, rows: map<int, Row>)
    requires AddVerdict(name, email, course, rows) == Ok
    ensures Acceptable(AddedRow(name, email, course))
  {
    var gs := AddGuards(Strip(name), Strip(email), Strip(course), rows);
    assert gs[0].pass && gs[1].pass && gs[2].pass;
  }

  /** A rule-abiding submission is accepted unless its email is already stored:
      the duplicate check is the only guard that looks at the table. */
  lemma AcceptableAddedUnlessTaken(name: string, email: string, course: string, rows: map<int, Row>)
    requires Acceptable(Row(name, email, course))
    ensures AddVerdict(name, email, course, rows) == (if EmailTaken(rows, email) then Duplicate else Ok)
  {
    StripTrimmed(name);
    StripTrimmed(email);
    StripTrimmed(course);
    var gs := AddGuards(name, email, course, rows);
    if EmailTaken(rows, email) {
      FirstFailureAt(gs, 3);
    } else {
      assert gs[0].pass && gs[1].pass && gs[2].pass && gs[3].pass;
    }
  }

  /** Whitespace around a stored email does not get past the duplicate check,
      because the comparison is made on the stripped value. */
  lemma PaddedEmailIsDuplicate(name: string, email: string, course: string, rows: map<int, Row>)
    requires Acceptable(AddedRow(name, email, course))
    requires EmailTaken(rows, Strip(email))
    ensures AddVerdict(name, email, course, rows) == Duplicate
  {
    var gs := AddGuards(Strip(name), Strip(email), Strip(course), rows);
    assert gs[0].pass && gs[1].pass && gs[2].pass;
    FirstFailureAt(gs, 3);
  }

  /** `add_student` keeps the table free of repeated emails. */
  lemma AddKeepsEmailsUnique(rows: map<int, Row>, id: int, name: string, email: string, course: string)
    requires EmailsUnique(rows) && id !in rows
    requires AddVerdict(name, email, course, rows) == Ok
    ensures EmailsUnique(rows[id := AddedRow(name, email, course)])
  {
    var gs := AddGuards(Strip(name), Strip(email), Strip(course), rows);
    assert gs[3].pass;
  }

  /** `edit_student` validates nothing: it can store an empty name and an email
      that another student already has. */
  lemma EditCanBreakRules()
    ensures var rows := map[1 := Row("Ann", "ann@uni.edu", "Math"), 2 := Row("Bob", "bob@uni.edu", "Art")];
      var edited := UpdateWhere(rows, 2, Row("", "ann@uni.edu", "Art"));
      EmailsUnique(rows) && !EmailsUnique(edited) && edited[2].name == ""
  {
    var rows := map[1 := Row("Ann", "ann@uni.edu", "Math"), 2 := Row("Bob", "bob@uni.edu", "Art")];
    var edited := UpdateWhere(rows, 2, Row("", "ann@uni.edu", "Art"));
    assert edited[1].email == edited[2].email;
  }

  /** The rows with ids `ks`, in that order. */
  function EntriesOf(rows: map<int, Row>, ks: seq<int>): (r: seq<Entry>)
    requires forall i :: 0 <= i < |ks| ==> ks[i] in rows
    ensures |r| == |ks|
    ensures forall i :: 0 <= i < |ks| ==> r[i] == Entry(ks[i], rows[ks[i]])
    ensures forall e :: e in r ==> e.id in ks && e.row == rows[e.id]
    ensures forall k :: k in ks ==> Entry(k, rows[k]) in r
  {
    var r := seq(|ks|, i requires 0 <= i < |ks| => Entry(ks[i], rows[ks[i]]));
    assert forall k :: k in ks ==> r[IndexOf(ks, k)] == Entry(k, rows[k]);
    r
  }

  /** `students` with the id counter of an AUTOINCREMENT key: `next` is one
      more than the largest id ever issued, so deleted ids are never reused. */
  class StudentTable {
    var rows: map<int, Row>
    var next: int

    ghost predicate Valid()
      reads this
    {
      1 <= next && IdsBelow(rows, next)
    }

    constructor ()
      ensures Valid() && rows == map[] && next == 1
    {
      rows := map[];
      next := 1;
    }

    /** `add_student` (POST /add): strip the three fields, run the guards in
        order, and insert only when all pass. */
    method AddStudent(name: string, email: string, course: string) returns (outcome: Outcome)
      requires Valid()
      modifies this
      ensures Valid()
      ensures outcome == AddVerdict(name, email, course, old(rows))
      ensures outcome == Ok ==> rows == old(rows)[old(next) := AddedRow(name, email, course)] && next == old(next) + 1
      ensures outcome != Ok ==> rows == old(rows) && next == old(next)
    {
      var n, e, c := Strip(name), Strip(email), Strip(course);
      outcome := AddStripped(n, e, c);
    }

    /** The guards and the insert of `add_student`, on the stripped values. */
    method AddStripped(n: string, e: string, c: string) returns (outcome: Outcome)
      requires Valid()
      modifies this
      ensures Valid()
      ensures outcome == FirstFailure(AddGuards(n, e, c, old(rows)))
      ensures outcome == Ok ==> rows == old(rows)[old(next) := Row(n, e, c)] && next == old(next) + 1
      ensures outcome != Ok ==> rows == old(rows) && next == old(next)
    {
      ghost var gs := AddGuards(n, e, c, rows);
      if n == "" || e == "" || c == "" {
        return MissingField;
      }
      if |n| < 2 {
        FirstFailureAt(gs, 1);
        return InvalidName;
      }
      if !('@' in e && '.' in e) {
        FirstFailureAt(gs, 2);
        return InvalidEmail;
      }
      if EmailTaken(rows, e) {
        FirstFailureAt(gs, 3);
        return Duplicate;
      }
      rows := rows[next := Row(n, e, c)];
      next := next + 1;
      outcome := Ok;
    }

    /** `edit_student` (POST /edit/<id>): a missing form key aborts the request
        with 400; otherwise the UPDATE overwrites all three columns of the row
        with that id, or of no row at all, and reports success either way. */
    method EditStudent(id: int, name: Option<string>, email: Option<string>, course: Option<string>)
      returns (outcome: Outcome)
      requires Valid()
      modifies this
      ensures Valid() && next == old(next)
      ensures outcome == (if name.None? || email.None? || course.None? then MissingField else Ok)
      ensures outcome == Ok ==> rows == UpdateWhere(old(rows), id, Row(name.value, email.value, course.value))
      ensures outcome != Ok ==> rows == old(rows)
    {
      if name.None? || email.None? || course.None? {
        return MissingField;
      }
      if id in rows {
        rows := rows[id := Row(name.value, email.value, course.value)];
      }
      outcome := Ok;
    }

    /** `delete_student` (/delete/<id>): removes the row with that id if there
        is one, and reports success in every case. */
    method DeleteStudent(id: int) returns (outcome: Outcome)
      requires Valid()
      modifies this
      ensures Valid() && next == old(next)
      ensures outcome == Ok
      ensures rows == old(rows) - {id}
    {
      rows := rows - {id};
      outcome := Ok;
    }

    /** `index` (GET /): every student, newest (largest id) first. */
    function Index(): (r: seq<Entry>)
      reads this
      requires Valid()
      ensures forall e :: e in r ==> e.id in rows && e.row == rows[e.id]
      ensures forall k :: k in rows ==> Entry(k, rows[k]) in r
      ensures forall i, j :: 0 <= i < j < |r| ==> r[i].id > r[j].id
    {
      var ks := IdsDown(rows, next - 1);
      assert forall i :: 0 <= i < |ks| ==> ks[i] in ks;
      EntriesOf(rows, ks)
    }

    /** `search` (GET /search?name=): no query gives no rows; otherwise the
        students whose name contains the query under SQLite's `LIKE`, in
        rowid order. */
    function Search(query: string): (r: seq<Entry>)
      reads this
      requires Valid()
      ensures query == "" ==> r == []
      ensures forall e :: e in r ==> e.id in rows && e.row == rows[e.id] && Like(e.row.name, query)
      ensures query != "" ==> forall k :: k in rows && Like(rows[k].name, query) ==> Entry(k, rows[k]) in r
      ensures forall i, j :: 0 <= i < j < |r| ==> r[i].id < r[j].id
    {
      if query == "" then []
      else
        var keep := (row: Row) => Like(row.name, query);
        var all := IdsUp(rows, next - 1);
        var ks := Select(rows, all, keep);
        SelectKeepsAscending(rows, all, keep);
        assert forall i :: 0 <= i < |ks| ==> ks[i] in ks;
        EntriesOf(rows, ks)
    }
  }
}
