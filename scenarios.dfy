/**
  What callers of the repositories can rely on across several calls, proved from
  the operations' contracts alone.
*/
module Scenarios {
  import opened Rows
  import opened Schema
  import BookRepository
  import LibraryRepository
  import MemberRepository

  /** Running `create_tables` a second time neither fails nor changes anything. */
  method CreateTablesTwice(store: Store) returns (first: Result<()>, second: Result<()>)
    requires store.Valid()
    modifies store
    ensures first.Ok? && second.Ok?
    ensures store.State() == old(store.State()).(tables := AllTables)
  {
    first := store.CreateTables({});
    ghost var afterFirst := store.State();
    second := store.CreateTables({});
    assert store.State() == afterFirst;
  }

  /**
    A created book can be read back by the id AUTOINCREMENT gave it, and its
    library lists it with a `library_books` row of quantity 1.
  */
  method CreateThenRead(store: Store, title: string, author: string, libraryId: i32, now: string)
    returns (created: Result<nat>, found: Result<Book>)
    requires store.Valid() && store.tables == AllTables
    requires store.lastBookId + 1 < 0x8000_0000
    requires (libraryId as int, store.lastBookId + 1) !in store.libraryBooks
    requires store.foreignKeys ==> libraryId as int in store.library
    modifies store
    ensures store.Valid() && store.tables == AllTables
    ensures created == Ok(1) && store.lastBookId == old(store.lastBookId) + 1
    ensures found == Ok(Row(store.lastBookId, BookFields(title, author, now, now)))
    ensures found.value in BookRepository.GetBooksByLibraryId(store.State(), libraryId).value
    ensures store.libraryBooks[(libraryId as int, store.lastBookId)] == 1
  {
    created := BookRepository.CreateBook(store, title, author, libraryId, now);
    found := BookRepository.GetBookById(store.State(), store.lastBookId as i32);
    var listed := BookRepository.GetBooksByLibraryId(store.State(), libraryId);
    ListsExactlyMembers(listed.value, store.books, BookIdsHeldBy(store.State(), libraryId));
    assert (libraryId as int, store.lastBookId) in store.libraryBooks;
  }

  /**
    With foreign keys off, `add_book` may link an id no book has yet. When
    `create_book` later issues that id for the same library, its link collides
    with the composite key and the catalog insert is rolled back too.
  */
  method CreateBookRollsBack(store: Store, title: string, author: string, libraryId: i32, now: string)
    returns (linked: Result<nat>, created: Result<nat>)
    requires store.Valid() && store.tables == AllTables && !store.foreignKeys
    requires store.lastBookId + 1 < 0x8000_0000
    requires (libraryId as int, store.lastBookId + 1) !in store.libraryBooks
    modifies store
    ensures store.Valid()
    ensures linked == Ok(1) && created == Err(UniqueViolation)
    ensures store.books == old(store.books) && store.lastBookId == old(store.lastBookId)
    ensures BookRepository.GetBooks(store.State()) == BookRepository.GetBooks(old(store.State()))
  {
    linked := LibraryRepository.AddBook(store, libraryId, (store.lastBookId + 1) as i32);
    created := BookRepository.CreateBook(store, title, author, libraryId, now);
  }

  /** A second `add_book` of the same pair fails and leaves the first row as it was. */
  method AddBookTwice(store: Store, libraryId: i32, bookId: i32) returns (first: Result<nat>, second: Result<nat>)
    requires store.Valid() && store.tables == AllTables
    requires (libraryId as int, bookId as int) !in store.libraryBooks
    requires store.foreignKeys ==> libraryId as int in store.library && bookId as int in store.books
    modifies store
    ensures first == Ok(1) && second == Err(UniqueViolation)
    ensures store.libraryBooks == old(store.libraryBooks)[(libraryId as int, bookId as int) := 1]
  {
    first := LibraryRepository.AddBook(store, libraryId, bookId);
    second := LibraryRepository.AddBook(store, libraryId, bookId);
  }

  /** `add_book_quantity` overwrites: after two calls the second quantity stands. */
  method QuantityOverwrites(store: Store, libraryId: i32, bookId: i32, q1: i32, q2: i32)
    returns (first: Result<nat>, second: Result<nat>)
    requires store.Valid() && store.tables == AllTables
    requires (libraryId as int, bookId as int) in store.libraryBooks
    modifies store
    ensures first == Ok(1) && second == Ok(1)
    ensures store.libraryBooks == old(store.libraryBooks)[(libraryId as int, bookId as int) := q2 as int]
  {
    first := LibraryRepository.AddBookQuantity(store, libraryId, bookId, q1);
    second := LibraryRepository.AddBookQuantity(store, libraryId, bookId, q2);
  }

  /** Borrowing a book the member already holds fails; one loan row remains, stamped by the first call. */
  method BorrowTwice(store: Store, memberId: i32, bookId: i32, now1: string, now2: string)
    returns (first: Result<nat>, second: Result<nat>)
    requires store.Valid() && store.tables == AllTables
    requires (memberId as int, bookId as int) !in store.borrowedBooks
    requires store.foreignKeys ==> memberId as int in store.members && bookId as int in store.books
    modifies store
    ensures first == Ok(1) && second == Err(UniqueViolation)
    ensures store.borrowedBooks == old(store.borrowedBooks)[(memberId as int, bookId as int) := now1]
    ensures store.libraryBooks == old(store.libraryBooks)
  {
    first := MemberRepository.BorrowBook(store, memberId, bookId, now1);
    second := MemberRepository.BorrowBook(store, memberId, bookId, now2);
  }

  /** Borrow, return, return: the second return deletes nothing and reports 0, not an error. */
  method ReturnTwice(store: Store, memberId: i32, bookId: i32, now: string)
    returns (borrowed: Result<nat>, first: Result<nat>, second: Result<nat>)
    requires store.Valid() && store.tables == AllTables
    requires (memberId as int, bookId as int) !in store.borrowedBooks
    requires store.foreignKeys ==> memberId as int in store.members && bookId as int in store.books
    modifies store
    ensures borrowed == Ok(1) && first == Ok(1) && second == Ok(0)
    ensures store.State() == old(store.State())
  {
    borrowed := MemberRepository.BorrowBook(store, memberId, bookId, now);
    first := MemberRepository.ReturnBook(store, memberId, bookId);
    second := MemberRepository.ReturnBook(store, memberId, bookId);
    assert store.borrowedBooks == old(store.borrowedBooks);
  }

  /** One call to a repository write operation, with its arguments. */
  datatype Call =
    | CreateBook(title: string, author: string, libraryId: i32, now: string)
    | UpdateBook(id: i32, title: string, author: string)
    | DeleteBook(id: i32)
    | CreateLibrary(name: string, address: string, managerId: i32, now: string)
    | UpdateLibrary(id: i32, name: string, address: string, managerId: i32)
    | DeleteLibrary(id: i32)
    | AddBook(libraryId: i32, bookId: i32)
    | AddBookQuantity(libraryId: i32, bookId: i32, quantity: i32)
    | CreateMember(name: string, email: string, now: string)
    | UpdateMember(id: i32, name: string, email: string, now: string)
    | DeleteMember(id: i32)
    | BorrowBook(memberId: i32, bookId: i32, now: string)
    | ReturnBook(memberId: i32, bookId: i32)

  /** Every write keeps the schema and the roster, and AUTOINCREMENT counters never go back. */
  twostate predicate Keeps(store: Store)
    reads store
  {
    && store.tables == old(store.tables)
    && store.libraryMembers == old(store.libraryMembers)
    && old(store.lastMemberId) <= store.lastMemberId
    && old(store.lastLibraryId) <= store.lastLibraryId
    && old(store.lastBookId) <= store.lastBookId
  }

  method Perform(store: Store, call: Call) returns (r: Result<nat>)
    requires store.Valid()
    modifies store
    ensures store.Valid() && Keeps(store)
  {
    match call
    case CreateBook(title, author, libraryId, now) =>
      r := BookRepository.CreateBook(store, title, author, libraryId, now);
    case UpdateBook(id, title, author) =>
      r := BookRepository.UpdateBook(store, id, title, author);
    case DeleteBook(id) =>
      r := BookRepository.DeleteBook(store, id);
    case CreateLibrary(name, address, managerId, now) =>
      r := LibraryRepository.CreateLibrary(store, name, address, managerId, now);
    case UpdateLibrary(id, name, address, managerId) =>
      r := LibraryRepository.UpdateLibrary(store, id, name, address, managerId);
    case DeleteLibrary(id) =>
      r := LibraryRepository.DeleteLibrary(store, id);
    case AddBook(libraryId, bookId) =>
      r := LibraryRepository.AddBook(store, libraryId, bookId);
    case AddBookQuantity(libraryId, bookId, quantity) =>
      r := LibraryRepository.AddBookQuantity(store, libraryId, bookId, quantity);
    case CreateMember(name, email, now) =>
      r := MemberRepository.CreateMember(store, name, email, now);
    case UpdateMember(id, name, email, now) =>
      r := MemberRepository.UpdateMember(store, id, name, email, now);
    case DeleteMember(id) =>
      r := MemberRepository.DeleteMember(store, id);
    case BorrowBook(memberId, bookId, now) =>
      r := MemberRepository.BorrowBook(store, memberId, bookId, now);
    case ReturnBook(memberId, bookId) =>
      r := MemberRepository.ReturnBook(store, memberId, bookId);
  }

  /** Any sequence of repository writes keeps the invariant, the schema and the roster. */
  method Run(store: Store, calls: seq<Call>)
    requires store.Valid()
    modifies store
    ensures store.Valid() && Keeps(store)
  {
    for i := 0 to |calls|
      invariant store.Valid() && Keeps(store)
    {
      var _ := Perform(store, calls[i]);
    }
  }

  /**
    On a new store set up by `create_tables`, whatever the repositories do,
    `get_members_by_library_id` finds nobody: no operation writes `library_members`.
  */
  method RosterStaysEmpty(foreignKeys: bool, calls: seq<Call>, libraryId: i32) returns (found: Result<seq<Member>>)
    ensures found == Ok([])
  {
    var store := new Store(foreignKeys);
    var created := store.CreateTables({});
    Run(store, calls);
    found := MemberRepository.GetMembersByLibraryId(store.State(), libraryId);
  }
}
