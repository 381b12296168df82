/**
  The relational store behind the three repositories: the six tables that
  `create_tables` declares, their keys, and the `Store` object whose tables the
  repositories change.

  Every table is a finite map from its primary key to the remaining columns, so
  a key, including the composite keys of the three join tables, names at most
  one row. AUTOINCREMENT is modelled by the largest id ever issued per table
  (SQLite keeps it in `sqlite_sequence`); a new row gets that value plus one.
*/
module Schema {
  import opened Rows

  /** Rust's `i32`: every id, quantity and filter the repositories accept has this type. */
  type i32 = x: int | -0x8000_0000 <= x < 0x8000_0000

  /** The six tables of the schema, in the order `create_tables` creates them. */
  datatype Table =
    | MembersTable
    | LibraryTable
    | BooksTable
    | LibraryBooksTable
    | LibraryMembersTable
    | BorrowedBooksTable

  const AllTables: set<Table> :=
    {MembersTable, LibraryTable, BooksTable, LibraryBooksTable, LibraryMembersTable, BorrowedBooksTable}

  /** Columns of `members` other than the id. Timestamps are the clock's text, kept opaque. */
  datatype MemberFields = MemberFields(name: string, email: string, createdAt: string, updatedAt: string)

  /** Columns of `library` other than the id. */
  datatype LibraryFields = LibraryFields(name: string, address: string, createdAt: string, updatedAt: string, managerId: int)

  /** Columns of `books` other than the id. */
  datatype BookFields = BookFields(title: string, author: string, createdAt: string, updatedAt: string)

  type Member = Row<MemberFields>
  type Library = Row<LibraryFields>
  type Book = Row<BookFields>

  /** A composite key: (library_id, book_id), (library_id, member_id) or (member_id, book_id). */
  type Pair = (int, int)

  /** How a statement fails. */
  datatype DbError =
    | NotFound             // `first` found no row
    | UniqueViolation      // the primary or composite key is already present
    | ForeignKeyViolation  // a referenced row is missing, or a row still referenced is deleted
    | NoSuchTable          // the statement names a table that has not been created
    | IoFailure            // the store failed the statement for a reason outside this model

  /** The `QueryResult` every repository operation returns. */
  datatype Result<T> = Ok(value: T) | Err(error: DbError) {
    predicate IsFailure() { Err? }

    function PropagateFailure<U>(): Result<U>
      requires Err?
    {
      Err(error)
    }

    function Extract(): T
      requires Ok?
    {
      value
    }
  }

  /**
    A snapshot of the whole store. `lastMemberId`, `lastLibraryId` and `lastBookId`
    are the largest ids AUTOINCREMENT has issued; `foreignKeys` says whether the
    connection enforces the declared foreign keys (SQLite's `PRAGMA foreign_keys`).
  */
  datatype Db = Db(
    tables: set<Table>,
    members: map<int, MemberFields>,
    library: map<int, LibraryFields>,
    books: map<int, BookFields>,
    libraryBooks: map<Pair, int>,
    libraryMembers: set<Pair>,
    borrowedBooks: map<Pair, string>,
    lastMemberId: int,
    lastLibraryId: int,
    lastBookId: int,
    foreignKeys: bool)

  /** Every id of `table` was issued by AUTOINCREMENT, whose ids start at 1 and never exceed `last`. */
  ghost predicate IssuedUpTo<T>(table: map<int, T>, last: int)
  {
    0 <= last && forall id :: id in table ==> 1 <= id <= last
  }

  /** Every foreign key the schema declares names an existing row. */
  ghost predicate ReferencesResolve(s: Db)
  {
    && (forall id :: id in s.library ==> s.library[id].managerId in s.members)
    && (forall p :: p in s.libraryBooks ==> p.0 in s.library && p.1 in s.books)
    && (forall p :: p in s.libraryMembers ==> p.0 in s.library && p.1 in s.members)
    && (forall p :: p in s.borrowedBooks ==> p.0 in s.members && p.1 in s.books)
  }

  /**
    The store's invariant. The schema exists entirely or not at all (it is created
    in one transaction), nothing is stored before it exists, ids come from
    AUTOINCREMENT, and with foreign keys enforced every reference resolves.
  */
  ghost predicate Consistent(s: Db)
  {
    && (s.tables == {} || s.tables == AllTables)
    && (s.tables == {} ==>
          && s.members == map[] && s.library == map[] && s.books == map[]
          && s.libraryBooks == map[] && s.libraryMembers == {} && s.borrowedBooks == map[])
    && IssuedUpTo(s.members, s.lastMemberId)
    && IssuedUpTo(s.library, s.lastLibraryId)
    && IssuedUpTo(s.books, s.lastBookId)
    && (s.foreignKeys ==> ReferencesResolve(s))
  }

  /** The book ids of the `library_books` rows of one library. */
  function BookIdsHeldBy(s: Db, libraryId: int): set<int>
  {
    set p | p in s.libraryBooks && p.0 == libraryId :: p.1
  }

  /** The book ids of the `borrowed_books` rows of one member. */
  function BookIdsBorrowedBy(s: Db, memberId: int): set<int>
  {
    set p | p in s.borrowedBooks && p.0 == memberId :: p.1
  }

  /** The member ids of the `library_members` rows of one library. */
  function MemberIdsOf(s: Db, libraryId: int): set<int>
  {
    set p | p in s.libraryMembers && p.0 == libraryId :: p.1
  }

  /** One `CREATE TABLE IF NOT EXISTS` statement: creating a table that exists changes nothing. */
  function CreateTableIfNotExists(existing: set<Table>, t: Table, faults: set<Table>): (r: Result<set<Table>>)
    ensures r.Ok? <==> t !in faults
    ensures r.Ok? ==> t in r.value && existing <= r.value && r.value - existing <= {t}
    ensures r.Err? ==> r.error == IoFailure
  {
    if t in faults then Err(IoFailure) else Ok(existing + {t})
  }

  /** The database file the repositories share. */
  class Store {
    const foreignKeys: bool
    var tables: set<Table>
    var members: map<int, MemberFields>
    var library: map<int, LibraryFields>
    var books: map<int, BookFields>
    var libraryBooks: map<Pair, int>
    var libraryMembers: set<Pair>
    var borrowedBooks: map<Pair, string>
    var lastMemberId: int
    var lastLibraryId: int
    var lastBookId: int

    /** The current contents of the store, as a value. */
    function State(): Db
      reads this
    {
      Db(tables, members, library, books, libraryBooks, libraryMembers, borrowedBooks,
         lastMemberId, lastLibraryId, lastBookId, foreignKeys)
    }

    ghost predicate Valid()
      reads this
    {
      Consistent(State())
    }

    /** A new, empty database file: no tables yet. */
    constructor (foreignKeys: bool)
      ensures Valid()
      ensures State() == Db({}, map[], map[], map[], map[], {}, map[], 0, 0, 0, foreignKeys)
    {
      this.foreignKeys := foreignKeys;
      tables, members, library, books := {}, map[], map[], map[];
      libraryBooks, libraryMembers, borrowedBooks := map[], {}, map[];
      lastMemberId, lastLibraryId, lastBookId := 0, 0, 0;
    }

    /**
      `create_tables`: six `CREATE TABLE IF NOT EXISTS` statements in one
      transaction, each leaving early on failure. `faults` names the statements
      the store fails; the source then aborts start-up, and here the transaction
      is rolled back and the error returned.
    */
    method CreateTables(faults: set<Table>) returns (r: Result<()>)
      requires Valid()
      modifies this
      ensures Valid()
      ensures r.Ok? <==> faults == {}
      ensures r.Ok? ==> State() == old(State()).(tables := AllTables)
      ensures r.Err? ==> r.error == IoFailure && State() == old(State())
    {
      var created := tables;
      created :- CreateTableIfNotExists(created, MembersTable, faults);
      created :- CreateTableIfNotExists(created, LibraryTable, faults);
      created :- CreateTableIfNotExists(created, BooksTable, faults);
      created :- CreateTableIfNotExists(created, LibraryBooksTable, faults);
      created :- CreateTableIfNotExists(created, LibraryMembersTable, faults);
      created :- CreateTableIfNotExists(created, BorrowedBooksTable, faults);
      assert faults == {} by {
        forall t: Table ensures t !in faults {
          match t
          case MembersTable =>
          case LibraryTable =>
          case BooksTable =>
          case LibraryBooksTable =>
          case LibraryMembersTable =>
          case BorrowedBooksTable =>
        }
      }
      tables := created;
      r := Ok(());
    }
  }
}
