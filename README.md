# Lending library persistence layer, modelled in Dafny

This project models the persistence layer of a small lending-library web
service. The service keeps members, libraries and books in one SQLite file.
Three repositories work on six tables:

- `members`, `library` and `books` hold the entities. Each has an AUTOINCREMENT
  id and text `created_at` / `updated_at` timestamps.
- `library_books` lists a library's holdings as (library, book, quantity).
- `library_members` is a roster of (library, member) pairs.
- `borrowed_books` is the loan ledger of (member, book, borrowed at) rows. A row
  means the member holds the book now, and returning the book deletes the row.

The model has these parts:

- `rows.dfy` (module `Rows`) defines one listed row, `Row<T>`. It also defines
  the scan every listing query makes, `Listing`, which returns rows in
  ascending id order. `ListsExactly` specifies that scan independently, and
  `ListingUnique` proves that this specification leaves only one possible
  answer.
- `schema.dfy` (module `Schema`) defines the tables, their column records, the
  error kinds and `Result`. It defines the snapshot value `Db`, its invariant
  `Consistent` and the `Store` class, whose fields are the six tables.
  `Store.CreateTables` models `create_tables`.
- `book_repository.dfy`, `library_repository.dfy` and `member_repository.dfy`
  model one repository each.
  - A write operation is a method that `modifies` the store. Its `ensures`
    gives the whole new state as an update of the old snapshot, or says that
    the snapshot is unchanged when the transaction fails.
  - A read operation is a function of a snapshot.
- `scenarios.dfy` (module `Scenarios`) proves what holds across several calls,
  using only the operations' contracts. It also proves that any sequence of
  writes keeps the invariant.

The real database is modelled as follows:

- A primary key names at most one row, because each table is a map from its key.
  This includes the composite keys of the three join tables.
- AUTOINCREMENT is the largest id ever issued for the table, as SQLite's
  `sqlite_sequence` records it. A new row gets that value plus one, so an id
  freed by a delete is never issued again.
- A transaction computes its new tables and commits them only when every
  statement succeeded. Every error path therefore leaves the store as it was.
- The declared foreign keys are enforced only when the connection's
  `foreignKeys` flag is set. SQLite's default is off, and the repositories never
  turn it on. With the flag off, dangling references are stored as written.
  With it on:
  - an insert or update that names a missing parent fails;
  - deleting a row still referenced fails;
  - the invariant also says that every reference resolves.
- The clock is a parameter `now` of the operations that stamp a time. The text
  of a timestamp is kept as an opaque string.

Two behaviours of the code are easy to misread:

- `create_book` and `create_library` return the affected-row count of their last
  insert, which is always 1, and not the new id (book_repository.rs:53-55,
  library_repository.rs:39-43).
- The schema declares foreign keys for every manager, holding, roster entry and
  loan (mod.rs:32, 51-52, 61-62, 72-73), but no code enables their enforcement,
  and the repositories look nothing up themselves. The model therefore keeps
  dangling references when `foreignKeys` is off, and proves that every
  reference resolves only when it is on.

## Model

| member | source | states |
|---|---|---|
| Schema.CreateTableIfNotExists | infrastructure/src/repositories/mod.rs:14-22 | One `CREATE TABLE IF NOT EXISTS` statement succeeds exactly when the store does not fail it. After it the table exists, and it adds no table but that one, so running it on an existing table changes nothing. |
| Schema.Store.CreateTables | infrastructure/src/repositories/mod.rs:9-79 | All six tables are created in one transaction. It succeeds exactly when no statement fails. Success leaves all six tables present with all data untouched; a failure reports the error and changes nothing. The store invariant is kept. |
| Scenarios.CreateTablesTwice | infrastructure/src/repositories/mod.rs:9-79 | Running `create_tables` a second time succeeds and leaves the store exactly as the first run left it. |
| Rows.Listing | infrastructure/src/repositories/book_repository.rs:86-92 | Scanning ids from lo to hi yields exactly the rows that are in the table and kept by the filter, with their stored columns, in strictly ascending id order. |
| Rows.ListingUnique | infrastructure/src/repositories/book_repository.rs:86-92 | Any two lists that list exactly a filtered table in ascending id order are equal, so the listing specification fixes the query's answer. |
| Rows.EmptyExactlyWhenNoMatch | infrastructure/src/repositories/book_repository.rs:94-107 | A listing is empty if and only if no kept id has a row. |
| Rows.HeadRemoved | infrastructure/src/repositories/book_repository.rs:86-92 | Dropping the first row of an exact listing gives the exact listing of the filter without that row's id. |
| BookRepository.CreateBook | infrastructure/src/repositories/book_repository.rs:27-57 | Inserts a book stamped `now` for both timestamps, under the next AUTOINCREMENT id, which exceeds every existing id. Links that id to the library with quantity 1 and returns 1. The link fails on a duplicate (library, book) key, or, with foreign keys on, on a missing library. Any failure, or a missing table, rolls the catalog insert back and changes nothing. |
| BookRepository.UpdateBook | infrastructure/src/repositories/book_repository.rs:59-67 | Sets title and author of the book with that id and returns 1. Timestamps stay unchanged. An unknown id returns 0 and changes nothing. |
| BookRepository.DeleteBook | infrastructure/src/repositories/book_repository.rs:69-76 | Removes only the catalog row and returns 1, or returns 0 for an unknown id. Holdings and loans of the book stay. With foreign keys on, a book that is still held or lent cannot be deleted. |
| BookRepository.GetBookById | infrastructure/src/repositories/book_repository.rs:78-84 | Returns the stored row with that id, NotFound when there is none, or NoSuchTable before the schema exists. |
| BookRepository.GetBooks | infrastructure/src/repositories/book_repository.rs:86-92 | Returns exactly the catalog, one row per book, in id order. |
| BookRepository.GetBooksByLibraryId | infrastructure/src/repositories/book_repository.rs:94-107 | Returns exactly the catalog rows whose ids have a `library_books` row for the library. Ids with no catalog row are skipped. A library with no holdings yields the empty list, not an error. |
| BookRepository.GetBookByIdAgreesWithGetBooks | infrastructure/src/repositories/book_repository.rs:78-92 | A lookup by id succeeds if and only if the full listing contains a row with that id, and then it returns that row. |
| LibraryRepository.CreateLibrary | infrastructure/src/repositories/library_repository.rs:28-44 | Inserts a library stamped `now` for both timestamps, with the given manager, under the next AUTOINCREMENT id, and returns 1. The manager id is not looked up; with foreign keys on, an unknown manager fails and changes nothing. |
| LibraryRepository.GetLibraries | infrastructure/src/repositories/library_repository.rs:46-52 | Returns exactly the `library` table, in id order. |
| LibraryRepository.GetLibraryById | infrastructure/src/repositories/library_repository.rs:54-60 | Returns the stored library with that id, NotFound when there is none, or NoSuchTable before the schema exists. |
| LibraryRepository.GetLibraryByIdAgreesWithGetLibraries | infrastructure/src/repositories/library_repository.rs:46-60 | A lookup by id succeeds if and only if the full listing contains a library with that id, and then it returns that row. |
| LibraryRepository.UpdateLibrary | infrastructure/src/repositories/library_repository.rs:62-70 | Sets name, address and manager and returns 1. `updated_at` is not refreshed. An unknown id returns 0 and changes nothing. |
| LibraryRepository.DeleteLibrary | infrastructure/src/repositories/library_repository.rs:72-79 | Removes only the `library` row and returns 1, or returns 0 for an unknown id. Its holdings and roster rows stay. With foreign keys on, a library still referenced cannot be deleted. |
| LibraryRepository.AddBook | infrastructure/src/repositories/library_repository.rs:81-90 | Inserts (library, book, quantity 1) and returns 1. A pair that is already present fails with a unique violation and changes nothing. With foreign keys on, a missing library or book fails. |
| LibraryRepository.AddBookQuantity | infrastructure/src/repositories/library_repository.rs:92-100 | Overwrites the quantity of an existing pair with the given value, not adding to it, and returns 1. A missing pair returns 0 and creates nothing. |
| MemberRepository.CreateMember | infrastructure/src/repositories/member_repository.rs:29-44 | Inserts a member stamped `now` for both timestamps, under the next AUTOINCREMENT id, and returns 1. It fails only when the table is missing. |
| MemberRepository.GetMembers | infrastructure/src/repositories/member_repository.rs:46-52 | Returns exactly the `members` table, in id order. |
| MemberRepository.GetMemberById | infrastructure/src/repositories/member_repository.rs:54-60 | Returns the stored member with that id, NotFound when there is none, or NoSuchTable before the schema exists. |
| MemberRepository.GetMemberByIdAgreesWithGetMembers | infrastructure/src/repositories/member_repository.rs:46-60 | A lookup by id succeeds if and only if the full listing contains a member with that id, and then it returns that row. |
| MemberRepository.UpdateMember | infrastructure/src/repositories/member_repository.rs:62-73 | Sets name and email, refreshes `updated_at` to `now` and keeps `created_at`, then returns 1. An unknown id returns 0 and changes nothing. |
| MemberRepository.DeleteMember | infrastructure/src/repositories/member_repository.rs:75-82 | Removes only the `members` row and returns 1, or returns 0 for an unknown id. The member's loans and managed libraries stay. With foreign keys on, a member still referenced cannot be deleted. |
| MemberRepository.GetMembersByLibraryId | infrastructure/src/repositories/member_repository.rs:84-97 | Returns exactly the member rows whose ids are on the library's roster. Members with no row are skipped, and an empty roster yields the empty list. |
| MemberRepository.BorrowBook | infrastructure/src/repositories/member_repository.rs:99-114 | Inserts (member, book, `now`) into the ledger and returns 1. Borrowing a book the member already holds fails with a unique violation and changes nothing. Library stock is neither checked nor decremented. With foreign keys on, a missing member or book fails. |
| MemberRepository.ReturnBook | infrastructure/src/repositories/member_repository.rs:116-124 | Deletes that loan and returns 1 if it existed, or 0 with no error (and nothing changed) if it did not. |
| MemberRepository.GetBorrowedBooks | infrastructure/src/repositories/member_repository.rs:126-148 | With library id -1, returns exactly the catalog rows of the books the member holds. With any other library id, returns only those that library also holds. Every returned book is on loan to the member. |
| MemberRepository.BorrowedInLibraryIsIntersection | infrastructure/src/repositories/member_repository.rs:126-148 | The answer for one library contains a book if and only if the unfiltered answer and `get_books_by_library_id` for that library both contain it. |
| Scenarios.CreateThenRead | infrastructure/src/repositories/book_repository.rs:27-107 | A book just created can be read back by the id it was given, with its title, author and timestamps, and its library's listing contains it with quantity 1. |
| Scenarios.CreateBookRollsBack | infrastructure/src/repositories/book_repository.rs:37-56 | When `add_book` has already linked the next id to the library, `create_book` fails, and the catalog, the id counter and `get_books` are as they were. |
| Scenarios.AddBookTwice | infrastructure/src/repositories/library_repository.rs:81-90 | A second `add_book` of the same pair fails, and one row with quantity 1 remains. |
| Scenarios.QuantityOverwrites | infrastructure/src/repositories/library_repository.rs:92-100 | After two `add_book_quantity` calls on a pair, the quantity is the second value. |
| Scenarios.BorrowTwice | infrastructure/src/repositories/member_repository.rs:99-114 | Borrowing the same book twice fails the second time. One loan remains, stamped by the first call, and holdings are untouched. |
| Scenarios.ReturnTwice | infrastructure/src/repositories/member_repository.rs:99-124 | After borrow, return, return, the calls report 1, 1 and 0, and the store is as it was before the borrow. |
| Scenarios.Run | infrastructure/src/repositories/library_repository.rs:28-100 | Any sequence of write operations of the three repositories (the writes here and those at book_repository.rs:27-76 and member_repository.rs:29-124) keeps the invariant, the schema and the roster, and never lowers an AUTOINCREMENT counter. |
| Scenarios.RosterStaysEmpty | infrastructure/src/repositories/member_repository.rs:84-97 | On a new store set up by `create_tables`, after any sequence of writes, `get_members_by_library_id` returns the empty list for every library, because no operation writes `library_members`. |

## Left out

- The HTTP controllers, routes and JSON bodies are left out. The one thing taken
  from them is the `-1` library id that the member controller supplies when a
  request leaves it out (api/src/controllers/member_controller.rs:31-33); here
  it is `MemberRepository.AllLibraries`.
- The shared application state, its mutex and concurrent requests are left out.
  Each operation is modelled as one atomic transaction on one store.
- The connection pool, `get_conn` and the database URL from the environment are
  left out. The store is a single `Store` object.
- The system clock is left out. `now` is a parameter, and its text format and
  the UTC conversion are not modelled.
- Schema.Store.CreateTables: the source panics through `expect` when a statement
  fails and aborts start-up. The model returns `Err(IoFailure)` after rolling
  back instead. Store failures appear only in `create_tables`, as the `faults`
  parameter; other operations do not model disk or I/O errors.
- `SQLITE_FULL` is not modelled. This is the error SQLite raises when
  AUTOINCREMENT would pass 2^63-1. The narrowing of stored ids to Rust's `i32`
  on read is also not modelled: ids issued as the counter grows are unbounded
  integers.
- BookRepository.GetBooksByLibraryId: SQLite's limit on bound parameters
  (`SQLITE_MAX_VARIABLE_NUMBER`) is not modelled. The second query binds one
  parameter per held book id, so the source returns an error when a library
  holds more books than that limit; the model always returns the rows.
- MemberRepository.GetMembersByLibraryId: the same bound-parameter limit is not
  modelled. The source fails when the roster names more members than the limit;
  the model always returns the rows.
- MemberRepository.GetBorrowedBooks: the same bound-parameter limit is not
  modelled. The source fails when the member's loans, or the loans the library
  also holds, bind more ids than the limit; the model always returns the rows.
- The driver and query-builder libraries, and SQL text itself, are left out.
  Each statement is modelled by its effect on the tables.
- Foreign-key enforcement is left out as a mechanism. It is a flag fixed when
  the store is created, and the repositories never turn it on. `ON DELETE`
  actions are not modelled, because the schema declares none.
- Result order: SQL defines no order without `ORDER BY`. The listing queries are
  modelled as returning ascending id order, which is what SQLite's rowid scan
  gives for these tables.
- Timestamps are not guaranteed to increase. Because `now` is a free parameter,
  the model does not promise that `updated_at` is never earlier than
  `created_at`.
- The domain's repository traits and the entity structs are left out, apart
  from the columns the repositories read and write.
