/**
  The book repository: the catalog (`books`) and a book's first link to a
  library (`library_books`). Each operation is one transaction; a write
  computes its new tables and commits them only when every statement succeeded.
*/
module BookRepository {
  import opened Rows
  import opened Schema

  /**
    `create_book`: insert a catalog row stamped `now` twice, read back the highest
    id in `books`, and link that id to `libraryId` with quantity 1. A failing link
    rolls the catalog insert back, id counter included.
  */
  method CreateBook(store: Store, title: string, author: string, libraryId: i32, now: string) returns (r: Result<nat>)
    requires store.Valid()
    modifies store
    ensures store.Valid()
    ensures var s := old(store.State()); var id := s.lastBookId + 1;
      && (!({BooksTable, LibraryBooksTable} <= s.tables) ==> r == Err(NoSuchTable))
      && ({BooksTable, LibraryBooksTable} <= s.tables && (libraryId as int, id) in s.libraryBooks ==> r == Err(UniqueViolation))
      && ({BooksTable, LibraryBooksTable} <= s.tables && (libraryId as int, id) !in s.libraryBooks ==>
            if s.foreignKeys && libraryId as int !in s.library then r == Err(ForeignKeyViolation) else r == Ok(1))
    ensures r.Err? ==> store.State() == old(store.State())
    ensures var s := old(store.State()); var id := s.lastBookId + 1;
      r.Ok? ==> store.State() == s.(books := s.books[id := BookFields(title, author, now, now)],
                                    lastBookId := id,
                                    libraryBooks := s.libraryBooks[(libraryId as int, id) := 1])
    ensures r.Ok? ==> forall k :: k in old(store.books) ==> k < store.lastBookId
  {
    if !({BooksTable, LibraryBooksTable} <= store.tables) {
      return Err(NoSuchTable);
    }
    // INSERT INTO books: AUTOINCREMENT issues the next id.
    var id := store.lastBookId + 1;
    var books := store.books[id := BookFields(title, author, now, now)];
    // SELECT id FROM books ORDER BY id DESC LIMIT 1
    assert id in books && forall k :: k in books ==> k <= id;
    var newest :| newest in books && forall k :: k in books ==> k <= newest;
    // INSERT INTO library_books (library_id, book_id, quantity 1)
    var key := (libraryId as int, newest);
    if key in store.libraryBooks {
      return Err(UniqueViolation);
    }
    if store.foreignKeys && (libraryId as int !in store.library || newest !in books) {
      return Err(ForeignKeyViolation);
    }
    store.books, store.lastBookId, store.libraryBooks := books, id, store.libraryBooks[key := 1];
    r := Ok(1);
  }

  /** `update_book`: set title and author of the row with that id; timestamps stay as they were. */
  method UpdateBook(store: Store, id: i32, title: string, author: string) returns (r: Result<nat>)
    requires store.Valid()
    modifies store
    ensures store.Valid()
    ensures BooksTable !in old(store.tables) ==> r == Err(NoSuchTable) && store.State() == old(store.State())
    ensures BooksTable in old(store.tables) && id !in old(store.books) ==> r == Ok(0) && store.State() == old(store.State())
    ensures var s := old(store.State());
      BooksTable in s.tables && id in s.books ==>
        r == Ok(1) && store.State() == s.(books := s.books[id := s.books[id].(title := title, author := author)])
  {
    if BooksTable !in store.tables {
      return Err(NoSuchTable);
    }
    if id !in store.books {
      return Ok(0);
    }
    store.books := store.books[id := store.books[id].(title := title, author := author)];
    r := Ok(1);
  }

  /** Loans and library holdings that still name a book. */
  predicate BookReferenced(s: Db, id: int)
  {
    (exists p :: p in s.libraryBooks && p.1 == id) || (exists p :: p in s.borrowedBooks && p.1 == id)
  }

  /**
    `delete_book`: remove the catalog row only. Its `library_books` and
    `borrowed_books` rows stay; with foreign keys enforced, a book they still
    name cannot be deleted.
  */
  method DeleteBook(store: Store, id: i32) returns (r: Result<nat>)
    requires store.Valid()
    modifies store
    ensures store.Valid()
    ensures store.libraryBooks == old(store.libraryBooks) && store.borrowedBooks == old(store.borrowedBooks)
    ensures BooksTable !in old(store.tables) ==> r == Err(NoSuchTable) && store.State() == old(store.State())
    ensures BooksTable in old(store.tables) && id !in old(store.books) ==> r == Ok(0) && store.State() == old(store.State())
    ensures var s := old(store.State());
      BooksTable in s.tables && id in s.books ==>
        if s.foreignKeys && BookReferenced(s, id) then r == Err(ForeignKeyViolation) && store.State() == s
        else r == Ok(1) && store.State() == s.(books := s.books - {id})
  {
    if BooksTable !in store.tables {
      return Err(NoSuchTable);
    }
    if id !in store.books {
      return Ok(0);
    }
    if store.foreignKeys && BookReferenced(store.State(), id) {
      return Err(ForeignKeyViolation);
    }
    store.books := store.books - {id};
    r := Ok(1);
  }

  /** `get_book_by_id`: the row with that id, or NotFound. */
  function GetBookById(s: Db, id: i32): (r: Result<Book>)
    ensures r.Ok? ==> r.value.id == id && id in s.books && r.value.fields == s.books[id]
    ensures r.Err? <==> BooksTable !in s.tables || id !in s.books
    ensures r.Err? ==> r.error == if BooksTable in s.tables then NotFound else NoSuchTable
  {
    if BooksTable !in s.tables then Err(NoSuchTable)
    else if id in s.books then Ok(Row(id, s.books[id]))
    else Err(NotFound)
  }

  /** `get_books`: every catalog row, in id order. */
  function GetBooks(s: Db): (r: Result<seq<Book>>)
    requires Consistent(s)
    ensures r.Err? <==> BooksTable !in s.tables
    ensures r.Err? ==> r.error == NoSuchTable
    ensures r.Ok? ==> ListsExactly(r.value, s.books, s.books.Keys)
  {
    if BooksTable !in s.tables then Err(NoSuchTable)
    else
      ListingIsExact(s.books, s.books.Keys, 1, s.lastBookId);
      Ok(Listing(s.books, s.books.Keys, 1, s.lastBookId))
  }

  /**
    `get_books_by_library_id`: the book ids of the library's `library_books` rows,
    then the catalog rows with those ids. Ids without a catalog row are skipped,
    and a library with no rows yields the empty list.
  */
  function GetBooksByLibraryId(s: Db, libraryId: i32): (r: Result<seq<Book>>)
    requires Consistent(s)
    ensures r.Err? <==> !({LibraryBooksTable, BooksTable} <= s.tables)
    ensures r.Err? ==> r.error == NoSuchTable
    ensures r.Ok? ==> ListsExactly(r.value, s.books, BookIdsHeldBy(s, libraryId))
    ensures r.Ok? && (forall p :: p in s.libraryBooks ==> p.0 != libraryId) ==> r.value == []
  {
    if !({LibraryBooksTable, BooksTable} <= s.tables) then Err(NoSuchTable)
    else
      var bookIds := BookIdsHeldBy(s, libraryId);
      ListingIsExact(s.books, bookIds, 1, s.lastBookId);
      EmptyExactlyWhenNoMatch(Listing(s.books, bookIds, 1, s.lastBookId), s.books, bookIds);
      Ok(Listing(s.books, bookIds, 1, s.lastBookId))
  }

  /** A lookup by id finds exactly the rows the full listing shows. */
  lemma GetBookByIdAgreesWithGetBooks(s: Db, id: i32)
    requires Consistent(s) && BooksTable in s.tables
    ensures GetBookById(s, id).Ok? <==> exists b :: b in GetBooks(s).value && b.id == id
    ensures GetBookById(s, id).Ok? ==> GetBookById(s, id).value in GetBooks(s).value
  {
    ListsExactlyMembers(GetBooks(s).value, s.books, s.books.Keys);
    if id in s.books {
      assert Row(id, s.books[id]) in GetBooks(s).value;
    }
  }
}
