/** The Author/Book JSON API (part-4/backend/practice.py): create, partial
    update, delete and get for both resources, and the two filtered book
    listings. */
module BookApi {
  import opened Common
  import opened Text
  import opened Tables

  /** A row of `author`: three NOT NULL strings. */
  datatype Author = Author(name: string, bio: string, city: string)

  /** A row of `book`: `title`, `year` and `author_id` are NOT NULL, `isbn` is
      nullable and UNIQUE. The foreign key is not enforced, so `authorId` may
      name no author. */
  datatype Book = Book(title: string, year: int, isbn: Option<string>, authorId: int)

  /** One key of a JSON request body: missing, present with `null`, or present
      with a value. */
  datatype Field<T> = Absent | Null | Val(v: T)

  /** `data.get(key)` is truthy: a non-empty string. */
  predicate Given(f: Field<string>) {
    f.Val? && f.v != ""
  }

  /** The keys of a book body that the handlers read; `others` says whether
      the object has further keys. */
  datatype BookBody = BookBody(title: Field<string>, year: Field<int>, isbn: Field<string>,
                               authorId: Field<int>, others: bool)

  datatype AuthorBody = AuthorBody(name: Field<string>, bio: Field<string>, city: Field<string>, others: bool)

  const EmptyBookBody := BookBody(Absent, Absent, Absent, Absent, false)
  const EmptyAuthorBody := AuthorBody(Absent, Absent, Absent, false)

  /** `not data`: the body is JSON `null` or the empty object. Requests that
      Flask refuses before the handler runs (no JSON content type, malformed
      JSON) are outside the model. */
  predicate NoBookData(body: Option<BookBody>) {
    body.GetOr(EmptyBookBody) == EmptyBookBody
  }

  predicate NoAuthorData(body: Option<AuthorBody>) {
    body.GetOr(EmptyAuthorBody) == EmptyAuthorBody
  }

  /** Some stored book has this ISBN. */
  predicate IsbnStored(books: map<int, Book>, isbn: string) {
    exists k :: k in books && books[k].isbn == Some(isbn)
  }

  /** Some book other than `id` has this ISBN. */
  predicate IsbnHeldByOther(books: map<int, Book>, isbn: string, id: int) {
    exists k :: k in books && k != id && books[k].isbn == Some(isbn)
  }

  /** The UNIQUE constraint on `book.isbn`: no two books share a non-null ISBN. */
  ghost predicate IsbnsUnique(books: map<int, Book>) {
    forall i, j :: i in books && j in books && i != j && books[i].isbn.Some? ==> books[i].isbn != books[j].isbn
  }

  // ---------------------------------------------------------------------------
  // Responses

  datatype AuthorRef = AuthorRef(id: int, name: string, city: string)
  datatype BookView = BookView(id: int, title: string, year: int, isbn: Option<string>, author: Option<AuthorRef>)
  datatype AuthorView = AuthorView(id: int, name: string, bio: string, city: string)

  /** A JSON response: the HTTP status, the `success` key (`None` when the body
      has no such key), the outcome and the record it carries. */
  datatype Reply<T> = Reply(status: int, success: Option<bool>, outcome: Outcome, data: Option<T>)

  /** The status a handler answers with: 201 for a creation, 200 for any other
      success, 404 for an unknown id, 500 for a failed commit (an unhandled
      IntegrityError), 400 for the rest. */
  function ApiStatus(o: Outcome, creates: bool): int {
    match o
    case Ok => if creates then 201 else 200
    case NotFound => 404
    case StorageError => 500
    case _ => 400
  }

  /** The `success` key: absent from the error page of a failed commit. */
  function ApiSuccess(o: Outcome): Option<bool> {
    if o == StorageError then None else Some(o == Ok)
  }

  /** `Book.to_dict`: the columns and, when `author_id` names a stored author,
      that author's id, name and city (no bio); otherwise `null`. */
  function BookDict(id: int, b: Book, authors: map<int, Author>): (v: BookView)
    ensures v.id == id && v.title == b.title && v.year == b.year && v.isbn == b.isbn
    ensures v.author.Some? <==> b.authorId in authors
    ensures v.author.Some? ==>
      v.author.value == AuthorRef(b.authorId, authors[b.authorId].name, authors[b.authorId].city)
  {
    var author := if b.authorId in authors
      then Some(AuthorRef(b.authorId, authors[b.authorId].name, authors[b.authorId].city))
      else None;
    BookView(id, b.title, b.year, b.isbn, author)
  }

  /** `Author.to_dict`: the id and all three columns, so the row can be read
      back from the dict. */
  function AuthorDict(id: int, a: Author): (v: AuthorView)
    ensures v.id == id && Author(v.name, v.bio, v.city) == a
  {
    AuthorView(id, a.name, a.bio, a.city)
  }

  // ---------------------------------------------------------------------------
  // create_book

  /** The guards of `create_book` in order, then the constraints the INSERT
      meets at commit: `year` and `author_id` NOT NULL, `isbn` UNIQUE. */
  function CreateBookGuards(body: Option<BookBody>, books: map<int, Book>): seq<Guard> {
    var b := body.GetOr(EmptyBookBody);
    [ Guard(!NoBookData(body), NoData),
      Guard(Given(b.title), MissingField),
      Guard(!(Given(b.isbn) && IsbnStored(books, b.isbn.v)), Duplicate),
      Guard(b.year.Val? && b.authorId.Val? && !(b.isbn.Val? && IsbnStored(books, b.isbn.v)), StorageError) ]
  }

  function CreateBookVerdict(body: Option<BookBody>, books: map<int, Book>): Outcome {
    FirstFailure(CreateBookGuards(body, books))
  }

  /** A body the INSERT can store: title, year and author id present. */
  predicate Insertable(b: BookBody) {
    b.title.Val? && b.year.Val? && b.authorId.Val?
  }

  function NewBook(b: BookBody): Book
    requires Insertable(b)
  {
    Book(b.title.v, b.year.v, if b.isbn.Val? then Some(b.isbn.v) else None, b.authorId.v)
  }

  /** A created book has the title, year, ISBN and author id of the body, and
      no stored book has its ISBN. Whether the author exists is not checked. */
  lemma CreateBookAccepted(body: Option<BookBody>, books: map<int, Book>)
    requires CreateBookVerdict(body, books) == Ok
    ensures body.Some? && Insertable(body.value) && body.value.title.v != ""
    ensures NewBook(body.value).isbn.Some? ==> !IsbnStored(books, NewBook(body.value).isbn.value)
  {
    var gs := CreateBookGuards(body, books);
    assert gs[0].pass && gs[1].pass && gs[3].pass;
  }

  /** `create_book` keeps ISBNs unique. */
  lemma CreateBookKeepsIsbnsUnique(books: map<int, Book>, id: int, body: Option<BookBody>)
    requires IsbnsUnique(books) && id !in books
    requires CreateBookVerdict(body, books) == Ok
    ensures body.Some? && Insertable(body.value)
    ensures IsbnsUnique(books[id := NewBook(body.value)])
  {
    CreateBookAccepted(body, books);
  }

  /** A non-empty ISBN that is already stored is refused by the handler's own
      check (400), whatever the year and author id. */
  lemma CreateBookDuplicateIsbn(body: Option<BookBody>, books: map<int, Book>)
    requires body.Some? && Given(body.value.title) && Given(body.value.isbn)
    requires IsbnStored(books, body.value.isbn.v)
    ensures CreateBookVerdict(body, books) == Duplicate
  {
    FirstFailureAt(CreateBookGuards(body, books), 2);
  }

  /** An empty ISBN skips the handler's check; if another book already has the
      empty ISBN, the UNIQUE column refuses the row at commit (500). */
  lemma CreateBookEmptyIsbnReachesStorage(body: Option<BookBody>, books: map<int, Book>)
    requires body.Some? && Given(body.value.title) && body.value.isbn == Val("")
    requires IsbnStored(books, "")
    ensures CreateBookVerdict(body, books) == StorageError
  {
    var gs := CreateBookGuards(body, books);
    assert !gs[0].pass ==> false;
    FirstFailureAt(gs, 3);
  }

  // ---------------------------------------------------------------------------
  // update_book

  /** The guards of `update_book` in order (the book exists, the body is not
      empty), then the constraints the UPDATE meets at commit: a `null` title,
      year or author id breaks NOT NULL, an ISBN of another book breaks UNIQUE.
      The handler itself does not check the ISBN. */
  function UpdateBookGuards(id: int, body: Option<BookBody>, books: map<int, Book>): seq<Guard> {
    var b := body.GetOr(EmptyBookBody);
    [ Guard(id in books, NotFound),
      Guard(!NoBookData(body), NoData),
      Guard(!b.title.Null? && !b.year.Null? && !b.authorId.Null?, StorageError),
      Guard(!(b.isbn.Val? && IsbnHeldByOther(books, b.isbn.v, id)), StorageError) ]
  }

  function UpdateBookVerdict(id: int, body: Option<BookBody>, books: map<int, Book>): Outcome {
    FirstFailure(UpdateBookGuards(id, body, books))
  }

  /** No `null` lands in a NOT NULL column of `book`. */
  predicate NoNullColumns(b: BookBody) {
    !b.title.Null? && !b.year.Null? && !b.authorId.Null?
  }

  /** `update_book`'s assignments: each key present in the body overwrites its
      column; a `null` ISBN clears it. */
  function PatchBook(prev: Book, b: BookBody): (r: Book)
    requires NoNullColumns(b)
    ensures r.title == (if b.title.Absent? then prev.title else b.title.v)
    ensures r.year == (if b.year.Absent? then prev.year else b.year.v)
    ensures r.authorId == (if b.authorId.Absent? then prev.authorId else b.authorId.v)
    ensures b.isbn.Absent? ==> r.isbn == prev.isbn
    ensures b.isbn.Null? ==> r.isbn.None?
    ensures b.isbn.Val? ==> r.isbn == Some(b.isbn.v)
    ensures b == BookBody(Absent, Absent, Absent, Absent, b.others) ==> r == prev
  {
    Book(if b.title.Val? then b.title.v else prev.title,
         if b.year.Val? then b.year.v else prev.year,
         match b.isbn
         case Absent => prev.isbn
         case Null => None
         case Val(s) => Some(s),
         if b.authorId.Val? then b.authorId.v else prev.authorId)
  }

  /** Sending the same update twice changes nothing the second time. */
  lemma PatchBookIdempotent(prev: Book, b: BookBody)
    requires NoNullColumns(b)
    ensures PatchBook(PatchBook(prev, b), b) == PatchBook(prev, b)
  {
  }

  /** `update_book` keeps ISBNs unique: the UNIQUE constraint stands in for the
      check the handler leaves out. */
  lemma UpdateBookKeepsIsbnsUnique(books: map<int, Book>, id: int, body: Option<BookBody>)
    requires IsbnsUnique(books)
    requires UpdateBookVerdict(id, body, books) == Ok
    ensures id in books && body.Some? && NoNullColumns(body.value)
    ensures IsbnsUnique(books[id := PatchBook(books[id], body.value)])
  {
    var gs := UpdateBookGuards(id, body, books);
    assert gs[0].pass && gs[1].pass && gs[2].pass && gs[3].pass;
    var b := body.value;
    var after := books[id := PatchBook(books[id], b)];
    forall i, j | i in after && j in after && i != j && after[i].isbn.Some?
      ensures after[i].isbn != after[j].isbn
    {
      if i == id || j == id {
        var other := if i == id then j else i;
        if b.isbn.Val? {
          assert !IsbnHeldByOther(books, b.isbn.v, id);
          assert books[other].isbn != Some(b.isbn.v);
        }
      }
    }
  }

  /** An ISBN that another book has is refused at commit (500), not by a
      400 check as in `create_book`. */
  lemma UpdateBookIsbnClash(id: int, body: Option<BookBody>, books: map<int, Book>)
    requires id in books && body.Some? && NoNullColumns(body.value)
    requires body.value.isbn.Val? && IsbnHeldByOther(books, body.value.isbn.v, id)
    ensures UpdateBookVerdict(id, body, books) == StorageError
  {
    var gs := UpdateBookGuards(id, body, books);
    assert !gs[1].pass ==> false;
    FirstFailureAt(gs, 3);
  }

  // ---------------------------------------------------------------------------
  // create_authors and author (update)

  function CreateAuthorGuards(body: Option<AuthorBody>): seq<Guard> {
    var a := body.GetOr(EmptyAuthorBody);
    [ Guard(!NoAuthorData(body), NoData),
      Guard(Given(a.name) && Given(a.city) && Given(a.bio), MissingField) ]
  }

  function CreateAuthorVerdict(body: Option<AuthorBody>): Outcome {
    FirstFailure(CreateAuthorGuards(body))
  }

  /** `create_authors` stores an author only when name, city and bio are all
      non-empty strings. */
  lemma CreateAuthorAccepted(body: Option<AuthorBody>)
    ensures CreateAuthorVerdict(body) == Ok <==>
      body.Some? && Given(body.value.name) && Given(body.value.city) && Given(body.value.bio)
  {
    var gs := CreateAuthorGuards(body);
    if CreateAuthorVerdict(body) == Ok {
      assert gs[0].pass && gs[1].pass;
    } else if body.Some? && Given(body.value.name) {
      assert gs[0].pass;
    }
  }

  function UpdateAuthorGuards(id: int, body: Option<AuthorBody>, authors: map<int, Author>): seq<Guard> {
    var a := body.GetOr(EmptyAuthorBody);
    [ Guard(id in authors, NotFound),
      Guard(!NoAuthorData(body), NoData),
      Guard(!a.name.Null? && !a.bio.Null? && !a.city.Null?, StorageError) ]
  }

  function UpdateAuthorVerdict(id: int, body: Option<AuthorBody>, authors: map<int, Author>): Outcome {
    FirstFailure(UpdateAuthorGuards(id, body, authors))
  }

  predicate NoNullAuthorColumns(a: AuthorBody) {
    !a.name.Null? && !a.bio.Null? && !a.city.Null?
  }

  /** The `author` handler's assignments: each of name, city, bio present in
      the body overwrites its column. */
  function PatchAuthor(prev: Author, a: AuthorBody): (r: Author)
    requires NoNullAuthorColumns(a)
    ensures r.name == (if a.name.Absent? then prev.name else a.name.v)
    ensures r.bio == (if a.bio.Absent? then prev.bio else a.bio.v)
    ensures r.city == (if a.city.Absent? then prev.city else a.city.v)
    ensures a == AuthorBody(Absent, Absent, Absent, a.others) ==> r == prev
  {
    Author(if a.name.Val? then a.name.v else prev.name,
           if a.bio.Val? then a.bio.v else prev.bio,
           if a.city.Val? then a.city.v else prev.city)
  }

  /** A body holding only keys the handler does not read passes every guard and
      leaves the author as it was. */
  lemma UpdateAuthorIgnoresOtherKeys(id: int, authors: map<int, Author>)
    requires id in authors
    ensures var body := AuthorBody(Absent, Absent, Absent, true);
      UpdateAuthorVerdict(id, Some(body), authors) == Ok && PatchAuthor(authors[id], body) == authors[id]
  {
  }

  /** Some stored book names this author. */
  predicate HasBooks(books: map<int, Book>, id: int) {
    exists k :: k in books && books[k].authorId == id
  }

  function DeleteAuthorVerdict(id: int, authors: map<int, Author>, books: map<int, Book>): Outcome {
    FirstFailure([Guard(id in authors, NotFound), Guard(!HasBooks(books, id), StorageError)])
  }

  /** `delete_author` succeeds exactly for a stored author that no book names,
      so a deletion never leaves a book pointing at the removed author. */
  lemma DeleteAuthorAccepted(id: int, authors: map<int, Author>, books: map<int, Book>)
    ensures DeleteAuthorVerdict(id, authors, books) == Ok <==>
      id in authors && forall k :: k in books ==> books[k].authorId != id
    ensures id in authors && HasBooks(books, id) ==> DeleteAuthorVerdict(id, authors, books) == StorageError
  {
    var gs := [Guard(id in authors, NotFound), Guard(!HasBooks(books, id), StorageError)];
    if id in authors && HasBooks(books, id) {
      FirstFailureAt(gs, 1);
    }
  }

  // ---------------------------------------------------------------------------
  // get_books and search_books

  /** The query-string filters; "" or `None` is a filter left out. */
  datatype BookFilter = BookFilter(title: string, year: Option<int>, author: string)

  /** The WHERE clause: title and author name contain the text under `ilike`,
      the year is equal; with `join`, the inner join with `author` also drops
      books whose author is not stored. */
  predicate Matches(b: Book, authors: map<int, Author>, f: BookFilter, join: bool) {
    && (join ==> b.authorId in authors)
    && (f.title != "" ==> Like(b.title, f.title))
    && (f.year.Some? ==> b.year == f.year.value)
    && (f.author != "" ==> b.authorId in authors && Like(authors[b.authorId].name, f.author))
  }

  /** The views of the books with ids `ks`, in that order. */
  function ViewsOf(ks: seq<int>, books: map<int, Book>, authors: map<int, Author>): (r: seq<BookView>)
    requires forall i :: 0 <= i < |ks| ==> ks[i] in books
    ensures |r| == |ks|
    ensures forall i :: 0 <= i < |ks| ==> r[i] == BookDict(ks[i], books[ks[i]], authors)
    ensures forall v :: v in r ==> v.id in ks && v == BookDict(v.id, books[v.id], authors)
    ensures forall k :: k in ks ==> BookDict(k, books[k], authors) in r
  {
    var r := seq(|ks|, i requires 0 <= i < |ks| => BookDict(ks[i], books[ks[i]], authors));
    assert forall k :: k in ks ==> r[IndexOf(ks, k)] == BookDict(k, books[k], authors);
    r
  }

  /** `get_books` before pagination: the books of the inner join with `author`
      that pass every filter, by id descending. */
  function BookListing(books: map<int, Book>, authors: map<int, Author>, hi: int, f: BookFilter): (r: seq<BookView>)
    requires IdsBelow(books, hi + 1)
    ensures forall v :: v in r ==> v.id in books && v == BookDict(v.id, books[v.id], authors)
                                    && Matches(books[v.id], authors, f, true)
    ensures forall k :: k in books && Matches(books[k], authors, f, true) ==> BookDict(k, books[k], authors) in r
    ensures forall i, j :: 0 <= i < j < |r| ==> r[i].id > r[j].id
  {
    var keep := (b: Book) => Matches(b, authors, f, true);
    var all := IdsDown(books, hi);
    var ks := Select(books, all, keep);
    SelectKeepsDescending(books, all, keep);
    assert forall i :: 0 <= i < |ks| ==> ks[i] in ks;
    ViewsOf(ks, books, authors)
  }

  /** `search_books`: the same filters (`q` for the title), joining `author`
      only when an author filter is given, in rowid order. */
  function SearchListing(books: map<int, Book>, authors: map<int, Author>, hi: int, f: BookFilter): (r: seq<BookView>)
    requires IdsBelow(books, hi + 1)
    ensures forall v :: v in r ==> v.id in books && v == BookDict(v.id, books[v.id], authors)
                                    && Matches(books[v.id], authors, f, f.author != "")
    ensures forall k :: k in books && Matches(books[k], authors, f, f.author != "") ==> BookDict(k, books[k], authors) in r
    ensures forall i, j :: 0 <= i < j < |r| ==> r[i].id < r[j].id
  {
    var keep := (b: Book) => Matches(b, authors, f, f.author != "");
    var all := IdsUp(books, hi);
    var ks := Select(books, all, keep);
    SelectKeepsAscending(books, all, keep);
    assert forall i :: 0 <= i < |ks| ==> ks[i] in ks;
    ViewsOf(ks, books, authors)
  }

  /** The views of the authors with ids `ks`, in that order. */
  function AuthorViewsOf(ks: seq<int>, authors: map<int, Author>): (r: seq<AuthorView>)
    requires forall i :: 0 <= i < |ks| ==> ks[i] in authors
    ensures |r| == |ks|
    ensures forall i :: 0 <= i < |ks| ==> r[i] == AuthorDict(ks[i], authors[ks[i]])
    ensures forall v :: v in r ==> v.id in ks && v == AuthorDict(v.id, authors[v.id])
    ensures forall k :: k in ks ==> AuthorDict(k, authors[k]) in r
  {
    var r := seq(|ks|, i requires 0 <= i < |ks| => AuthorDict(ks[i], authors[ks[i]]));
    assert forall k :: k in ks ==> r[IndexOf(ks, k)] == AuthorDict(k, authors[k]);
    r
  }

  /** `get_authors` before pagination: every author, in rowid order. */
  function AuthorListing(authors: map<int, Author>, hi: int): (r: seq<AuthorView>)
    requires IdsBelow(authors, hi + 1)
    ensures forall k :: k in authors ==> AuthorDict(k, authors[k]) in r
    ensures forall v :: v in r ==> v.id in authors && v == AuthorDict(v.id, authors[v.id])
    ensures forall i, j :: 0 <= i < j < |r| ==> r[i].id < r[j].id
  {
    var ks := IdsUp(authors, hi);
    assert forall i :: 0 <= i < |ks| ==> ks[i] in ks;
    AuthorViewsOf(ks, authors)
  }

  /** A book whose author id is dangling never appears in `get_books`, even
      with no filter, but does appear in an unfiltered `search_books`. */
  lemma DanglingAuthorOnlyInSearch(books: map<int, Book>, authors: map<int, Author>, hi: int, k: int)
    requires IdsBelow(books, hi + 1) && k in books && books[k].authorId !in authors
    ensures forall v :: v in BookListing(books, authors, hi, BookFilter("", None, "")) ==> v.id != k
    ensures BookDict(k, books[k], authors) in SearchListing(books, authors, hi, BookFilter("", None, ""))
  {
  }

  /** A new book is listed by `get_books` under its author's full name. */
  lemma NewBookListedUnderAuthor(books: map<int, Book>, authors: map<int, Author>, hi: int, id: int, b: Book)
    requires 1 <= hi && IdsBelow(books, hi) && id == hi && b.authorId in authors
    ensures var name := authors[b.authorId].name;
      BookDict(id, b, authors) in BookListing(books[id := b], authors, hi, BookFilter("", None, name))
  {
    var name := authors[b.authorId].name;
    LikeOfOccurrence(name, name, 0);
    assert name[0..|name|] == name;
  }

  // ---------------------------------------------------------------------------
  // The store

  /** The `author` and `book` tables with their next ids. */
  class Library {
    var authors: map<int, Author>
    var books: map<int, Book>
    var nextAuthor: int
    var nextBook: int

    ghost predicate Valid()
      reads this
    {
      && 1 <= nextAuthor && IdsBelow(authors, nextAuthor)
      && 1 <= nextBook && IdsBelow(books, nextBook)
      && IsbnsUnique(books)
    }

    constructor ()
      ensures Valid() && authors == map[] && books == map[]
    {
      authors, books := map[], map[];
      nextAuthor, nextBook := 1, 1;
    }

    /** `create_book` (POST /api/books). */
    method CreateBook(body: Option<BookBody>) returns (r: Reply<BookView>)
      requires Valid()
      modifies this
      ensures Valid()
      ensures authors == old(authors) && nextAuthor == old(nextAuthor)
      ensures r.outcome == CreateBookVerdict(body, old(books))
      ensures r.status == ApiStatus(r.outcome, true) && r.success == ApiSuccess(r.outcome)
      ensures r.outcome == Ok ==>
        && body.Some? && Insertable(body.value)
        && books == old(books)[old(nextBook) := NewBook(body.value)]
        && nextBook == old(nextBook) + 1
        && r.data == Some(BookDict(old(nextBook), NewBook(body.value), authors))
      ensures r.outcome != Ok ==> books == old(books) && nextBook == old(nextBook) && r.data.None?
    {
      ghost var gs := CreateBookGuards(body, books);
      if body.None? || body.value == EmptyBookBody {
        return Reply(400, Some(false), NoData, None);
      }
      var b := body.value;
      if !(b.title.Val? && b.title.v != "") {
        FirstFailureAt(gs, 1);
        return Reply(400, Some(false), MissingField, None);
      }
      if b.isbn.Val? && b.isbn.v != "" && IsbnStored(books, b.isbn.v) {
        FirstFailureAt(gs, 2);
        return Reply(400, Some(false), Duplicate, None);
      }
      if !(b.year.Val? && b.authorId.Val?) || (b.isbn.Val? && IsbnStored(books, b.isbn.v)) {
        FirstFailureAt(gs, 3);
        return Reply(500, None, StorageError, None);
      }
      CreateBookKeepsIsbnsUnique(books, nextBook, body);
      var book := NewBook(b);
      books := books[nextBook := book];
      r := Reply(201, Some(true), Ok, Some(BookDict(nextBook, book, authors)));
      nextBook := nextBook + 1;
    }

    /** `update_book` (PUT /api/books/<id>). */
    method UpdateBook(id: int, body: Option<BookBody>) returns (r: Reply<BookView>)
      requires Valid()
      modifies this
      ensures Valid()
      ensures authors == old(authors) && nextAuthor == old(nextAuthor) && nextBook == old(nextBook)
      ensures r.outcome == UpdateBookVerdict(id, body, old(books))
      ensures r.status == ApiStatus(r.outcome, false) && r.success == ApiSuccess(r.outcome)
      ensures r.outcome == Ok ==>
        && id in old(books) && body.Some? && NoNullColumns(body.value)
        && books == old(books)[id := PatchBook(old(books)[id], body.value)]
        && r.data == Some(BookDict(id, books[id], authors))
      ensures r.outcome != Ok ==> books == old(books) && r.data.None?
    {
      ghost var gs := UpdateBookGuards(id, body, books);
      if id !in books {
        return Reply(404, Some(false), NotFound, None);
      }
      if body.None? || body.value == EmptyBookBody {
        FirstFailureAt(gs, 1);
        return Reply(400, Some(false), NoData, None);
      }
      var b := body.value;
      if b.title.Null? || b.year.Null? || b.authorId.Null? {
        FirstFailureAt(gs, 2);
        return Reply(500, None, StorageError, None);
      }
      if b.isbn.Val? && IsbnHeldByOther(books, b.isbn.v, id) {
        FirstFailureAt(gs, 3);
        return Reply(500, None, StorageError, None);
      }
      UpdateBookKeepsIsbnsUnique(books, id, body);
      var book := books[id];
      if b.title.Val? { book := book.(title := b.title.v); }
      if b.year.Val? { book := book.(year := b.year.v); }
      if b.isbn.Val? { book := book.(isbn := Some(b.isbn.v)); }
      else if b.isbn.Null? { book := book.(isbn := None); }
      if b.authorId.Val? { book := book.(authorId := b.authorId.v); }
      books := books[id := book];
      r := Reply(200, Some(true), Ok, Some(BookDict(id, book, authors)));
    }

    /** `delete_book` (DELETE /api/books/<id>). */
    method DeleteBook(id: int) returns (r: Reply<BookView>)
      requires Valid()
      modifies this
      ensures Valid()
      ensures authors == old(authors) && nextAuthor == old(nextAuthor) && nextBook == old(nextBook)
      ensures r.outcome == (if id in old(books) then Ok else NotFound)
      ensures r.status == ApiStatus(r.outcome, false) && r.success == ApiSuccess(r.outcome) && r.data.None?
      ensures books == old(books) - {id}
    {
      if id !in books {
        return Reply(404, Some(false), NotFound, None);
      }
      books := books - {id};
      r := Reply(200, Some(true), Ok, None);
    }

    /** `get_book` (GET /api/books/<id>). */
    function GetBook(id: int): (r: Reply<BookView>)
      reads this
      ensures r.outcome == (if id in books then Ok else NotFound)
      ensures r.status == ApiStatus(r.outcome, false) && r.success == Some(id in books)
      ensures r.data == (if id in books then Some(BookDict(id, books[id], authors)) else None)
    {
      if id in books then Reply(200, Some(true), Ok, Some(BookDict(id, books[id], authors)))
      else Reply(404, Some(false), NotFound, None)
    }

    /** `get_books` (GET /api/books): the list that is then cut into pages. */
    function GetBooks(f: BookFilter): (r: seq<BookView>)
      reads this
      requires Valid()
      ensures forall v :: v in r ==> v.id in books && v == BookDict(v.id, books[v.id], authors)
                                      && Matches(books[v.id], authors, f, true)
      ensures forall k :: k in books && Matches(books[k], authors, f, true) ==> BookDict(k, books[k], authors) in r
      ensures forall i, j :: 0 <= i < j < |r| ==> r[i].id > r[j].id
    {
      BookListing(books, authors, nextBook - 1, f)
    }

    /** `search_books` (GET /api/books/search). */
    function SearchBooks(f: BookFilter): (r: seq<BookView>)
      reads this
      requires Valid()
      ensures forall v :: v in r ==> v.id in books && v == BookDict(v.id, books[v.id], authors)
                                      && Matches(books[v.id], authors, f, f.author != "")
      ensures forall k :: k in books && Matches(books[k], authors, f, f.author != "") ==> BookDict(k, books[k], authors) in r
      ensures forall i, j :: 0 <= i < j < |r| ==> r[i].id < r[j].id
    {
      SearchListing(books, authors, nextBook - 1, f)
    }

    /** `get_authors` (GET /api/author): the list that is then cut into pages. */
    function GetAuthors(): (r: seq<AuthorView>)
      reads this
      requires Valid()
      ensures forall k :: k in authors ==> AuthorDict(k, authors[k]) in r
      ensures forall v :: v in r ==> v.id in authors && v == AuthorDict(v.id, authors[v.id])
      ensures forall i, j :: 0 <= i < j < |r| ==> r[i].id < r[j].id
    {
      AuthorListing(authors, nextAuthor - 1)
    }

    /** `create_authors` (POST /api/authors). A missing name, city or bio is
        answered with status 200 and a misspelt `succss` key. */
    method CreateAuthor(body: Option<AuthorBody>) returns (r: Reply<AuthorView>)
      requires Valid()
      modifies this
      ensures Valid()
      ensures books == old(books) && nextBook == old(nextBook)
      ensures r.outcome == CreateAuthorVerdict(body)
      ensures r.outcome == NoData ==> r.status == 400 && r.success == Some(false)
      ensures r.outcome == MissingField ==> r.status == 200 && r.success.None?
      ensures r.outcome == Ok ==>
        && r.status == 201 && r.success == Some(true)
        && body.Some? && body.value.name.Val? && body.value.bio.Val? && body.value.city.Val?
        && var a := Author(body.value.name.v, body.value.bio.v, body.value.city.v);
           authors == old(authors)[old(nextAuthor) := a] && nextAuthor == old(nextAuthor) + 1
           && r.data == Some(AuthorDict(old(nextAuthor), a))
      ensures r.outcome != Ok ==> authors == old(authors) && nextAuthor == old(nextAuthor) && r.data.None?
    {
      ghost var gs := CreateAuthorGuards(body);
      if body.None? || body.value == EmptyAuthorBody {
        return Reply(400, Some(false), NoData, None);
      }
      var a := body.value;
      if !(Given(a.name) && Given(a.city) && Given(a.bio)) {
        FirstFailureAt(gs, 1);
        return Reply(200, None, MissingField, None);
      }
      var author := Author(a.name.v, a.bio.v, a.city.v);
      authors := authors[nextAuthor := author];
      r := Reply(201, Some(true), Ok, Some(AuthorDict(nextAuthor, author)));
      nextAuthor := nextAuthor + 1;
    }

    /** `author` (PUT /api/authors/<id>). */
    method UpdateAuthor(id: int, body: Option<AuthorBody>) returns (r: Reply<AuthorView>)
      requires Valid()
      modifies this
      ensures Valid()
      ensures books == old(books) && nextBook == old(nextBook) && nextAuthor == old(nextAuthor)
      ensures r.outcome == UpdateAuthorVerdict(id, body, old(authors))
      ensures r.status == ApiStatus(r.outcome, false) && r.success == ApiSuccess(r.outcome)
      ensures r.outcome == Ok ==>
        && id in old(authors) && body.Some? && NoNullAuthorColumns(body.value)
        && authors == old(authors)[id := PatchAuthor(old(authors)[id], body.value)]
        && r.data == Some(AuthorDict(id, authors[id]))
      ensures r.outcome != Ok ==> authors == old(authors) && r.data.None?
    {
      ghost var gs := UpdateAuthorGuards(id, body, authors);
      if id !in authors {
        return Reply(404, Some(false), NotFound, None);
      }
      if body.None? || body.value == EmptyAuthorBody {
        FirstFailureAt(gs, 1);
        return Reply(400, Some(false), NoData, None);
      }
      var a := body.value;
      if a.name.Null? || a.bio.Null? || a.city.Null? {
        FirstFailureAt(gs, 2);
        return Reply(500, None, StorageError, None);
      }
      var author := authors[id];
      if a.name.Val? { author := author.(name := a.name.v); }
      if a.city.Val? { author := author.(city := a.city.v); }
      if a.bio.Val? { author := author.(bio := a.bio.v); }
      authors := authors[id := author];
      r := Reply(200, Some(true), Ok, Some(AuthorDict(id, author)));
    }

    /** `delete_author` (DELETE /api/authors/<id>). The `books` relationship
        has no delete cascade, so the flush first sets `author_id` of each of
        the author's books to NULL; the column is NOT NULL, and the commit
        fails while the author has books. */
    method DeleteAuthor(id: int) returns (r: Reply<AuthorView>)
      requires Valid()
      modifies this
      ensures Valid()
      ensures books == old(books) && nextBook == old(nextBook) && nextAuthor == old(nextAuthor)
      ensures r.outcome == DeleteAuthorVerdict(id, old(authors), books)
      ensures r.status == ApiStatus(r.outcome, false) && r.success == ApiSuccess(r.outcome) && r.data.None?
      ensures authors == (if r.outcome == Ok then old(authors) - {id} else old(authors))
    {
      if id !in authors {
        return Reply(404, Some(false), NotFound, None);
      }
      if HasBooks(books, id) {
        DeleteAuthorAccepted(id, authors, books);
        return Reply(500, None, StorageError, None);
      }
      authors := authors - {id};
      r := Reply(200, Some(true), Ok, None);
    }

    /** `get_author` (GET /api/authors/<id>): an unknown id is answered with
        404 but `success` true. */
    function GetAuthor(id: int): (r: Reply<AuthorView>)
      reads this
      ensures r.success == Some(true)
      ensures r.outcome == (if id in authors then Ok else NotFound)
      ensures r.status == ApiStatus(r.outcome, false)
      ensures r.data == (if id in authors then Some(AuthorDict(id, authors[id])) else None)
    {
      if id in authors then Reply(200, Some(true), Ok, Some(AuthorDict(id, authors[id])))
      else Reply(404, Some(true), NotFound, None)
    }
  }
}
