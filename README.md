# Flask record stores, modelled in Dafny

This project models the record-store logic behind the request handlers of three Flask
applications in a tutorial repository:

- **part-4 (Book/Author JSON API)**:
  - `create_book`, `update_book`, `delete_book`, `get_book`, `get_books`, `search_books`;
  - `get_authors`, `get_author`, `create_authors`, `author` (the update), `delete_author`.
- **part-3 (SQLAlchemy school forms)**: `add_student`, `edit_student`, `delete_student`,
  `add_course`, `add_teacher`, `edit_teacher`, `delete_teacher`.
- **part-2 (raw SQL)**: the `students` table with `add_student`, `edit_student`,
  `delete_student`, `index` and `search`.

Each database table is a `map` from integer id to a row datatype. Each application's tables
live in a class (`BookApi.Library`, `SchoolOrm.School`, `StudentSql.StudentTable`). The class
holds the tables, one fresh-id counter per table, and a `Valid()` invariant:
- every id is positive and below its counter;
- for part-4, no two books share a non-null ISBN, which is the UNIQUE column.

Each handler that changes data is a method with `modifies this`. Its contract says:
- which outcome it reports: `Ok`, `NoData`, `MissingField`, `InvalidName`, `InvalidEmail`,
  `Duplicate`, `BadReference`, `NotFound` or `StorageError`;
- for the JSON API, which HTTP status and `success` key it answers with;
- what every table looks like afterwards.

A rejected request leaves every table as it was.

The handlers check their guards in order and return at the first failure. Every such chain
has a pure reference definition: `Common.FirstFailure` applied to the list of guards.
Each method is proved equal to that definition. The lemmas about the pure definitions state:
- which guard wins when several fail;
- which invariants a successful call keeps;
- which inputs reach the database's own constraints;
- the quirks of the source.

Read handlers and listings are functions. Each is specified by what it returns:
- exactly the matching rows;
- in id order (descending for `ORDER BY id DESC`, ascending for an unordered scan).

Supporting modules:
- `Common`: `Option`, `Outcome` and the guard chain.
- `Text`: Python's `str.strip`, ASCII lower-casing and substring search; SQLite's `LIKE` and
  `ilike` are built from these.
- `Tables`: id-ordered key listings and the `WHERE` filter over a map.

Things the databases do and the model keeps:
- A write that breaks a NOT NULL or UNIQUE column constraint makes the commit fail. The model
  reports `StorageError` (an unhandled error, status 500) and leaves the store unchanged.
  The cases are:
  - `create_book` without `year` or `author_id`;
  - a JSON `null` sent to a NOT NULL column by an update;
  - an ISBN of another book sent to `update_book`;
  - an empty-string ISBN, which skips the handler's own check, when another book already
    has it;
  - `add_course` without a name;
  - `delete_author` while the author still has books. The `books` relationship has no
    delete cascade, so the flush sets those books' `author_id` to NULL, and that column is
    NOT NULL. The delete therefore fails instead of removing the author, and the model
    follows the code.
- `get_books` inner-joins `author`, so a book whose `author_id` names no author is never
  listed. `search_books` joins only when an author filter is given, so an unfiltered search
  does list such a book (`BookApi.DanglingAuthorOnlyInSearch`).

## Model

| member | source | states |
|---|---|---|
| Common.FirstFailure | part-3/practice.py:127-140 | The result is `Ok` exactly when every guard passes; otherwise it is the failure report of some guard that fails. |
| Common.FirstFailureAt | part-3/practice.py:198-214 | When guard `i` is the first to fail, its report is the outcome; a later failing guard never shows. |
| Text.Strip | part-2/app.py:56-58 | The result has no whitespace at either end and is no longer than the input. |
| Text.StripMeaning | part-2/app.py:56-58 | The result is the input's slice right after its leading whitespace run, and only whitespace follows that slice. It is empty exactly when the input is all whitespace (Python's `isspace` set). |
| Text.StripTrimmed | part-2/app.py:56-58 | Stripping a value without surrounding whitespace leaves it unchanged. |
| Text.StripIdempotent | part-2/app.py:56-58 | Stripping twice is the same as stripping once. |
| Text.ContainsIff | part-2/app.py:187-190 | The recursive substring test is true exactly when the pattern occurs at some position. |
| Text.LikeOfOccurrence | part-4/backend/practice.py:140-141 | A text that occurs inside a value matches `LIKE '%text%'` on that value. |
| Text.Like | part-4/backend/practice.py:135 | `col LIKE '%p%'` (and `ilike`) holds exactly when the lower-cased pattern occurs at some position of the lower-cased value. |
| Text.LikeIgnoresCase | part-4/backend/practice.py:141 | Matching is insensitive to the case of ASCII letters in both the value and the pattern. |
| Tables.IdsDown | part-2/app.py:112 | Exactly the stored ids up to the bound, strictly descending (`ORDER BY id DESC`). |
| Tables.IdsUp | part-2/app.py:187-190 | Exactly the stored ids up to the bound, strictly ascending (a scan in rowid order). |
| Tables.Select | part-4/backend/practice.py:132-141 | The `WHERE` filter keeps exactly the listed ids whose row satisfies the condition. |
| Tables.SelectKeepsDescending | part-4/backend/practice.py:143 | Filtering a descending list of ids keeps it descending. |
| Tables.SelectKeepsAscending | part-2/app.py:187-190 | Filtering an ascending list of ids keeps it ascending. |
| Tables.UpdateWhere | part-2/app.py:149-152 | `UPDATE ... WHERE id = ?` replaces the row with that id, keeps every other row, and adds no row when the id is absent. |
| StudentSql.AddedRowAcceptable | part-2/app.py:56-92 | Every row `add_student` stores is stripped, has three non-empty fields and a name of at least 2 characters, and has an email holding both '@' and '.'. |
| StudentSql.AcceptableAddedUnlessTaken | part-2/app.py:61-92 | A submission that meets every rule is accepted unless its email is already stored, in which case it is a duplicate. |
| StudentSql.PaddedEmailIsDuplicate | part-2/app.py:56-86 | Whitespace around an email that is already stored does not get past the duplicate check, because the stripped value is compared. |
| StudentSql.AddKeepsEmailsUnique | part-2/app.py:78-92 | An accepted `add_student` keeps emails unique in the table. |
| StudentSql.EditCanBreakRules | part-2/app.py:145-153 | `edit_student` validates nothing: it can store an empty name and an email that another row already has. |
| StudentSql.StudentTable.constructor | part-2/app.py:34-41 | The table starts empty and the id counter starts at 1. |
| StudentSql.StudentTable.AddStudent | part-2/app.py:56-92 | The outcome is the first failing guard among: required fields, then name length, then email shape, then duplicate. Only `Ok` inserts the stripped row, under a fresh id. |
| StudentSql.StudentTable.AddStripped | part-2/app.py:61-92 | On already stripped values: the outcome is the first failing guard, and only `Ok` inserts exactly that row under the next id. |
| StudentSql.StudentTable.EditStudent | part-2/app.py:145-153 | A missing form key is rejected (400). Otherwise the row with that id gets all three new values, other rows are unchanged, an absent id changes nothing, and `Ok` is reported either way. |
| StudentSql.StudentTable.DeleteStudent | part-2/app.py:172-176 | The row with that id is removed and nothing else changes; success is reported even when no row had that id. |
| StudentSql.StudentTable.Index | part-2/app.py:112 | Every stored student appears exactly once, with nothing else, newest (largest id) first. |
| StudentSql.StudentTable.Search | part-2/app.py:182-193 | No query gives an empty list. Otherwise the result is exactly the students whose name contains the query under `LIKE`, in ascending id order. |
| SchoolOrm.AddAccepted | part-3/practice.py:127-140 | An accepted `add_student` or `add_teacher` has every field, an email absent from the checked table, and an existing course. |
| SchoolOrm.AddDuplicateBeforeCourse | part-3/practice.py:131-140 | With all fields given, a taken email is reported as a duplicate whatever the course. |
| SchoolOrm.EditCourseBeforeDuplicate | part-3/practice.py:198-214 | On edit, an unknown course is reported before the email is looked at. |
| SchoolOrm.AddStudentKeepsInvariants | part-3/practice.py:143-150 | An accepted `add_student` keeps student emails unique and every student pointing at a stored course. |
| SchoolOrm.EditKeepsInvariants | part-3/practice.py:202-222 | An accepted edit keeps emails unique within the edited table and every row pointing at a stored course. |
| SchoolOrm.EditOwnEmailAccepted | part-3/practice.py:207-214 | In a table whose emails are all distinct, re-submitting a record's own email passes the edit chain, because the check excludes the record's own id. |
| SchoolOrm.EditTeacherAfterDuplicateRefused | part-3/practice.py:374-381 | Once `add_teacher` has let two teachers share an email, re-submitting either one's own email in `edit_teacher` is refused as a duplicate. |
| SchoolOrm.AddTeacherAdmitsTeacherDuplicate | part-3/practice.py:298-301 | `add_teacher` checks the email only against the student table. An email that a teacher already has is accepted, and the teacher table then holds it twice. |
| SchoolOrm.School.constructor | part-3/practice.py:424 | `db.create_all()`: the course, student and teacher tables start empty. |
| SchoolOrm.School.AddStudent | part-3/practice.py:122-158 | The outcome is the first failing guard among: required, then duplicate student email, then course exists. Only `Ok` inserts exactly that student under a fresh id; the other tables are untouched. |
| SchoolOrm.School.EditStudent | part-3/practice.py:187-222 | Unknown id gives `NotFound`; then required, then course, then email among other students. Only `Ok` overwrites name, email and course of that one student. |
| SchoolOrm.School.DeleteStudent | part-3/practice.py:236-243 | An unknown id gives `NotFound`; otherwise exactly that student is removed. |
| SchoolOrm.School.AddCourse | part-3/practice.py:249-254 | No validation: the course is stored with its description defaulting to "". A missing name fails the NOT NULL column and stores nothing. |
| SchoolOrm.School.AddTeacher | part-3/practice.py:290-320 | The same guard chain as `add_student`, with the email looked up in the student table. Only `Ok` inserts the teacher. |
| SchoolOrm.School.EditTeacher | part-3/practice.py:355-389 | Unknown id gives `NotFound`; then required, then course, then email among other teachers. Only `Ok` overwrites that one teacher. |
| SchoolOrm.School.DeleteTeacher | part-3/practice.py:407-415 | An unknown id gives `NotFound`; otherwise exactly that teacher is removed. |
| BookApi.BookDict | part-4/backend/practice.py:60-72 | The book's columns, plus its author's id, name and city when `author_id` names a stored author, and `null` exactly when it does not. |
| BookApi.AuthorDict | part-4/backend/practice.py:31-37 | The dict carries the id and all three columns, so the author row can be read back from it. |
| BookApi.CreateBookAccepted | part-4/backend/practice.py:217-238 | An accepted `create_book` had a body with a non-empty title, a year and an author id, and its ISBN (if any) is stored by no other book. Whether the author exists is not checked. |
| BookApi.CreateBookKeepsIsbnsUnique | part-4/backend/practice.py:224-238 | An accepted `create_book` keeps ISBNs unique. |
| BookApi.CreateBookDuplicateIsbn | part-4/backend/practice.py:224-227 | A non-empty ISBN that is already stored is rejected as a duplicate (400), whatever the year and author id. |
| BookApi.CreateBookEmptyIsbnReachesStorage | part-4/backend/practice.py:224-238 | An empty ISBN skips the handler's check; when another book has the empty ISBN, the insert fails at commit (500). |
| BookApi.PatchBookIdempotent | part-4/backend/practice.py:261-270 | Applying the same update body twice gives the same book as applying it once. |
| BookApi.PatchBook | part-4/backend/practice.py:261-270 | Each of title, year, ISBN and author id takes the body's value when its key is present and keeps the old value when absent; a `null` ISBN clears it; a body with none of these keys leaves the book unchanged. |
| BookApi.UpdateBookKeepsIsbnsUnique | part-4/backend/practice.py:261-272 | An accepted `update_book` keeps ISBNs unique. |
| BookApi.UpdateBookIsbnClash | part-4/backend/practice.py:266-272 | An ISBN held by another book is not checked by the handler; it fails at commit (500), not with a 400. |
| BookApi.CreateAuthorAccepted | part-4/backend/practice.py:493-507 | `create_authors` accepts exactly the bodies whose name, city and bio are all non-empty. |
| BookApi.UpdateAuthorIgnoresOtherKeys | part-4/backend/practice.py:526-537 | A body holding only keys the handler does not read passes and leaves the author as it was. |
| BookApi.PatchAuthor | part-4/backend/practice.py:530-535 | Each of name, bio and city takes the body's value when its key is present and keeps the old value when absent; a body with none of these keys leaves the author unchanged. |
| BookApi.DeleteAuthorAccepted | part-4/backend/practice.py:549-554 | `delete_author` succeeds exactly for a stored author that no book names. A stored author with books fails at commit. |
| BookApi.BookListing | part-4/backend/practice.py:132-143 | Exactly the books whose author is stored and that pass every given filter (title and author name by case-insensitive substring, year by equality), by id descending. |
| BookApi.SearchListing | part-4/backend/practice.py:336-355 | Exactly the books that pass every given filter (`q` on the title, year, author name), with the author join applied only when an author filter is given, in ascending id order. |
| BookApi.AuthorListing | part-4/backend/practice.py:461-463 | Every stored author exactly once, with nothing else, in ascending id order. |
| BookApi.DanglingAuthorOnlyInSearch | part-4/backend/practice.py:336-355 | A book whose author id names no author is missing from an unfiltered `get_books` but present in an unfiltered `search_books`. |
| BookApi.NewBookListedUnderAuthor | part-4/backend/practice.py:132-143 | A book just created for a stored author is listed by `get_books` when filtering by that author's full name. |
| BookApi.Library.constructor | part-4/backend/practice.py:600 | `db.create_all()`: the author and book tables start empty. |
| BookApi.Library.CreateBook | part-4/backend/practice.py:213-244 | The guards in order are: no data, then title, then duplicate ISBN; the NOT NULL and UNIQUE columns follow. Status 201 with the stored book only on `Ok`, which adds exactly that book under a fresh id; otherwise nothing changes. |
| BookApi.Library.UpdateBook | part-4/backend/practice.py:249-278 | The order is: unknown id (404), then no data (400), then the column constraints (500). On `Ok` only the keys present overwrite, and a `null` ISBN clears it; no other book changes. |
| BookApi.Library.DeleteBook | part-4/backend/practice.py:283-295 | An unknown id gives 404; otherwise exactly that book is removed and the authors are untouched. |
| BookApi.Library.GetBook | part-4/backend/practice.py:195-208 | The book's dict with success true, or 404 with success false. |
| BookApi.Library.GetBooks | part-4/backend/practice.py:123-173 | The list that is cut into pages: exactly the matching books, by id descending; `sort_by` and `order` do not affect it. |
| BookApi.Library.SearchBooks | part-4/backend/practice.py:334-361 | Exactly the books matching the search filters, in ascending id order. |
| BookApi.Library.GetAuthors | part-4/backend/practice.py:457-471 | The list that is cut into pages: every author, in ascending id order. |
| BookApi.Library.CreateAuthor | part-4/backend/practice.py:490-513 | No data gives 400. A missing name, city or bio gives status 200 with no `success` key (the key is misspelt). Otherwise 201, and exactly that author is added under a fresh id. |
| BookApi.Library.UpdateAuthor | part-4/backend/practice.py:518-543 | Unknown id gives 404, no data gives 400, a `null` column gives 500. On `Ok` only the name, city and bio keys present overwrite. |
| BookApi.Library.DeleteAuthor | part-4/backend/practice.py:548-560 | An unknown id gives 404, an author who still has books gives 500, and otherwise exactly that author is removed. The books never change. |
| BookApi.Library.GetAuthor | part-4/backend/practice.py:475-487 | The author's dict; an unknown id gives 404 with `success` still true. |

## Left out

- Flask routing, templates, `flash`, `redirect`, CORS and the HTML page in part-4's `index`:
  presentation. Only the outcome kind, the HTTP status and the `success` key are modelled.
- Pagination (`page`, `limit`, `paginate`) in `get_books` and `get_authors`: the model gives
  the full ordered list that is then cut into pages.
- BookApi.Library.GetBooks: the `sort_by`/`order` parameters are read but never reach the
  returned list, so the model has no such parameters.
- JWT `login` and `token_required`: cryptography, and no route in the model uses them.
- `created_at` (a clock reading) and the `init_db` seed data.
- The `Author.books` relationship's nulling of `author_id` is modelled only by its effect:
  the commit fails while the author has books.
- Ids are counters that never reuse a value. This is exact for part-2's AUTOINCREMENT
  key. For part-3 and part-4, SQLite may reuse the largest id after that row is deleted.
- `LIKE`/`ilike` use ASCII case folding, as SQLite's built-in `LIKE` does. The `%` and `_`
  wildcards inside user-supplied text are treated as ordinary characters.
- `search_books` and `get_authors` in part-4, and `search` in part-2, have no `ORDER BY`; the
  model assumes rowid (ascending id) order.
- The `year` filter is compared as an integer. A non-numeric `year` makes `search_books`
  fail in `int()` and makes `get_books` match nothing; neither is modelled.
- Requests that Flask refuses before a JSON handler runs (no JSON content type, malformed
  JSON) are not modelled; a missing body is modelled as JSON `null`.
- JSON values of the wrong type (a number where a string is expected, and so on) and a
  JSON body that is not an object are not modelled. A body key is absent, `null`, or a
  value of the column's type.
- part-3's `course_id` is modelled as blank, the text of an id, or text that names no
  course. The `IntegrityError` branches in part-3 are not reachable under the modelled
  inputs: no column there is UNIQUE, every NOT NULL value is guarded, and SQLite does not
  enforce the foreign keys.
- The check-then-insert race on email and ISBN uniqueness: concurrency.
- part-3's `index`, `courses` and `teachers` pages and the GET branches of the form
  handlers only render tables.
