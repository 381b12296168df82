/**
  The member repository: the `members` table, the read side of the
  `library_members` roster, and the loan ledger `borrowed_books`, where a row
  means the member holds that book now and returning deletes the row. Each
  operation is one transaction.
*/
module MemberRepository {
  import opened Rows
  import opened Schema
  import BookRepository

  /**
    The `library_id` that `get_borrowed_books` reads as "every library". The
    member controller supplies it when the route leaves the library out.
  */
  const AllLibraries: i32 := -1

  /** `create_member`: insert one row stamped `now` twice. */
  method CreateMember(store: Store, name: string, email: string, now: string) returns (r: Result<nat>)
    requires store.Valid()
    modifies store
    ensures store.Valid()
    ensures MembersTable !in old(store.tables) <==> r.Err?
    ensures r.Err? ==> r.error == NoSuchTable && store.State() == old(store.State())
    ensures var s := old(store.State()); var id := s.lastMemberId + 1;
      r.Ok? ==> r.value == 1 && store.State() == s.(members := s.members[id := MemberFields(name, email, now, now)],
                                                    lastMemberId := id)
    ensures r.Ok? ==> forall k :: k in old(store.members) ==> k < store.lastMemberId
  {
    if MembersTable !in store.tables {
      return Err(NoSuchTable);
    }
    var id := store.lastMemberId + 1;
    store.members, store.lastMemberId := store.members[id := MemberFields(name, email, now, now)], id;
    r := Ok(1);
  }

  /** `get_members`: every row, in id order. */
  function GetMembers(s: Db): (r: Result<seq<Member>>)
    requires Consistent(s)
    ensures r.Err? <==> MembersTable !in s.tables
    ensures r.Err? ==> r.error == NoSuchTable
    ensures r.Ok? ==> ListsExactly(r.value, s.members, s.members.Keys)
  {
    if MembersTable !in s.tables then Err(NoSuchTable)
    else
      ListingIsExact(s.members, s.members.Keys, 1, s.lastMemberId);
      Ok(Listing(s.members, s.members.Keys, 1, s.lastMemberId))
  }

  /** `get_member_by_id`: the row with that id, or NotFound. */
  function GetMemberById(s: Db, id: i32): (r: Result<Member>)
    ensures r.Ok? ==> r.value.id == id && id in s.members && r.value.fields == s.members[id]
    ensures r.Err? <==> MembersTable !in s.tables || id !in s.members
    ensures r.Err? ==> r.error == if MembersTable in s.tables then NotFound else NoSuchTable
  {
    if MembersTable !in s.tables then Err(NoSuchTable)
    else if id in s.members then Ok(Row(id, s.members[id]))
    else Err(NotFound)
  }

  /** A lookup by id finds exactly the rows the full listing shows. */
  lemma GetMemberByIdAgreesWithGetMembers(s: Db, id: i32)
    requires Consistent(s) && MembersTable in s.tables
    ensures GetMemberById(s, id).Ok? <==> exists m :: m in GetMembers(s).value && m.id == id
    ensures GetMemberById(s, id).Ok? ==> GetMemberById(s, id).value in GetMembers(s).value
  {
    ListsExactlyMembers(GetMembers(s).value, s.members, s.members.Keys);
    if id in s.members {
      assert Row(id, s.members[id]) in GetMembers(s).value;
    }
  }

  /** `update_member`: set name and email and refresh `updated_at` to `now`; `created_at` stays. */
  method UpdateMember(store: Store, id: i32, name: string, email: string, now: string) returns (r: Result<nat>)
    requires store.Valid()
    modifies store
    ensures store.Valid()
    ensures MembersTable !in old(store.tables) ==> r == Err(NoSuchTable) && store.State() == old(store.State())
    ensures MembersTable in old(store.tables) && id !in old(store.members) ==> r == Ok(0) && store.State() == old(store.State())
    ensures var s := old(store.State());
      MembersTable in s.tables && id in s.members ==>
        r == Ok(1) && store.State() == s.(members := s.members[id := s.members[id].(name := name, email := email, updatedAt := now)])
  {
    if MembersTable !in store.tables {
      return Err(NoSuchTable);
    }
    if id !in store.members {
      return Ok(0);
    }
    store.members := store.members[id := store.members[id].(name := name, email := email, updatedAt := now)];
    r := Ok(1);
  }

  /** Libraries managed by, roster rows of, and loans of a member. */
  predicate MemberReferenced(s: Db, id: int)
  {
    || (exists l :: l in s.library && s.library[l].managerId == id)
    || (exists p :: p in s.libraryMembers && p.1 == id)
    || (exists p :: p in s.borrowedBooks && p.0 == id)
  }

  /**
    `delete_member`: remove the `members` row only; the member's loans stay in
    `borrowed_books`. With foreign keys enforced, a member still referenced
    cannot be deleted.
  */
  method DeleteMember(store: Store, id: i32) returns (r: Result<nat>)
    requires store.Valid()
    modifies store
    ensures store.Valid()
    ensures store.borrowedBooks == old(store.borrowedBooks) && store.library == old(store.library)
    ensures MembersTable !in old(store.tables) ==> r == Err(NoSuchTable) && store.State() == old(store.State())
    ensures MembersTable in old(store.tables) && id !in old(store.members) ==> r == Ok(0) && store.State() == old(store.State())
    ensures var s := old(store.State());
      MembersTable in s.tables && id in s.members ==>
        if s.foreignKeys && MemberReferenced(s, id) then r == Err(ForeignKeyViolation) && store.State() == s
        else r == Ok(1) && store.State() == s.(members := s.members - {id})
  {
    if MembersTable !in store.tables {
      return Err(NoSuchTable);
    }
    if id !in store.members {
      return Ok(0);
    }
    if store.foreignKeys && MemberReferenced(store.State(), id) {
      return Err(ForeignKeyViolation);
    }
    store.members := store.members - {id};
    r := Ok(1);
  }

  /**
    `get_members_by_library_id`: the member ids of the library's roster rows, then
    the member rows with those ids. No repository writes `library_members`, so a
    roster the repositories built is empty and so is the answer.
  */
  function GetMembersByLibraryId(s: Db, libraryId: i32): (r: Result<seq<Member>>)
    requires Consistent(s)
    ensures r.Err? <==> !({LibraryMembersTable, MembersTable} <= s.tables)
    ensures r.Err? ==> r.error == NoSuchTable
    ensures r.Ok? ==> ListsExactly(r.value, s.members, MemberIdsOf(s, libraryId))
    ensures r.Ok? && (forall p :: p in s.libraryMembers ==> p.0 != libraryId) ==> r.value == []
  {
    if !({LibraryMembersTable, MembersTable} <= s.tables) then Err(NoSuchTable)
    else
      var memberIds := MemberIdsOf(s, libraryId);
      ListingIsExact(s.members, memberIds, 1, s.lastMemberId);
      EmptyExactlyWhenNoMatch(Listing(s.members, memberIds, 1, s.lastMemberId), s.members, memberIds);
      Ok(Listing(s.members, memberIds, 1, s.lastMemberId))
  }

  /**
    `borrow_book`: insert (member, book, `now`) into the ledger. The pair is the
    table's primary key, so borrowing a book the member already holds fails and
    changes nothing. Copies in `library_books` are neither checked nor counted down.
  */
  method BorrowBook(store: Store, memberId: i32, bookId: i32, now: string) returns (r: Result<nat>)
    requires store.Valid()
    modifies store
    ensures store.Valid()
    ensures store.libraryBooks == old(store.libraryBooks)
    ensures BorrowedBooksTable !in old(store.tables) ==> r == Err(NoSuchTable)
    ensures BorrowedBooksTable in old(store.tables) && (memberId as int, bookId as int) in old(store.borrowedBooks) ==>
      r == Err(UniqueViolation)
    ensures BorrowedBooksTable in old(store.tables) && (memberId as int, bookId as int) !in old(store.borrowedBooks) ==>
      if store.foreignKeys && (memberId as int !in old(store.members) || bookId as int !in old(store.books))
      then r == Err(ForeignKeyViolation) else r == Ok(1)
    ensures r.Err? ==> store.State() == old(store.State())
    ensures var s := old(store.State());
      r.Ok? ==> store.State() == s.(borrowedBooks := s.borrowedBooks[(memberId as int, bookId as int) := now])
  {
    if BorrowedBooksTable !in store.tables {
      return Err(NoSuchTable);
    }
    var key := (memberId as int, bookId as int);
    if key in store.borrowedBooks {
      return Err(UniqueViolation);
    }
    if store.foreignKeys && (memberId as int !in store.members || bookId as int !in store.books) {
      return Err(ForeignKeyViolation);
    }
    store.borrowedBooks := store.borrowedBooks[key := now];
    r := Ok(1);
  }

  /**
    `return_book`: delete the member's loan of that book and report how many rows
    went: 1, or 0 without an error when there is no such loan.
  */
  method ReturnBook(store: Store, memberId: i32, bookId: i32) returns (r: Result<nat>)
    requires store.Valid()
    modifies store
    ensures store.Valid()
    ensures BorrowedBooksTable !in old(store.tables) ==> r == Err(NoSuchTable) && store.State() == old(store.State())
    ensures BorrowedBooksTable in old(store.tables) ==>
      r == Ok(if (memberId as int, bookId as int) in old(store.borrowedBooks) then 1 else 0)
    ensures var s := old(store.State());
      BorrowedBooksTable in s.tables ==> store.State() == s.(borrowedBooks := s.borrowedBooks - {(memberId as int, bookId as int)})
  {
    if BorrowedBooksTable !in store.tables {
      return Err(NoSuchTable);
    }
    var key := (memberId as int, bookId as int);
    var deleted := if key in store.borrowedBooks then 1 else 0;
    store.borrowedBooks := store.borrowedBooks - {key};
    r := Ok(deleted);
  }

  /** The books `get_borrowed_books` answers with: all the member's loans, or those the library also holds. */
  function BorrowedBookIdsIn(s: Db, memberId: int, libraryId: int): set<int>
  {
    if libraryId == AllLibraries then BookIdsBorrowedBy(s, memberId)
    else BookIdsBorrowedBy(s, memberId) * BookIdsHeldBy(s, libraryId)
  }

  /**
    `get_borrowed_books`: the book ids of the member's loans; unless `libraryId`
    is `AllLibraries`, only those with a `library_books` row for that library;
    then the catalog rows with those ids.
  */
  function GetBorrowedBooks(s: Db, memberId: i32, libraryId: i32): (r: Result<seq<Book>>)
    requires Consistent(s)
    ensures r.Err? <==>
      !({BorrowedBooksTable, BooksTable} <= s.tables) || (libraryId != AllLibraries && LibraryBooksTable !in s.tables)
    ensures r.Err? ==> r.error == NoSuchTable
    ensures r.Ok? ==> ListsExactly(r.value, s.books, BorrowedBookIdsIn(s, memberId, libraryId))
    ensures r.Ok? ==> forall b :: b in r.value ==> (memberId as int, b.id) in s.borrowedBooks
    ensures r.Ok? && libraryId != AllLibraries ==> forall b :: b in r.value ==> (libraryId as int, b.id) in s.libraryBooks
  {
    if !({BorrowedBooksTable, BooksTable} <= s.tables) then Err(NoSuchTable)
    else
      var borrowed := set p | p in s.borrowedBooks && p.0 == memberId :: p.1;
      if libraryId != AllLibraries && LibraryBooksTable !in s.tables then Err(NoSuchTable)
      else
        var bookIds :=
          if libraryId == AllLibraries then borrowed
          else set p | p in s.libraryBooks && p.0 == libraryId && p.1 in borrowed :: p.1;
        assert bookIds == BorrowedBookIdsIn(s, memberId, libraryId);
        ListingIsExact(s.books, bookIds, 1, s.lastBookId);
        Ok(Listing(s.books, bookIds, 1, s.lastBookId))
  }

  /**
    Filtering by a library keeps exactly the borrowed books that library holds:
    the answer for one library is the answer for all libraries intersected with
    `get_books_by_library_id` for it.
  */
  lemma BorrowedInLibraryIsIntersection(s: Db, memberId: i32, libraryId: i32)
    requires Consistent(s) && s.tables == AllTables && libraryId != AllLibraries
    ensures forall b :: b in GetBorrowedBooks(s, memberId, libraryId).value <==>
      b in GetBorrowedBooks(s, memberId, AllLibraries).value && b in BookRepository.GetBooksByLibraryId(s, libraryId).value
  {
    ListsExactlyMembers(GetBorrowedBooks(s, memberId, libraryId).value, s.books, BorrowedBookIdsIn(s, memberId, libraryId));
    ListsExactlyMembers(GetBorrowedBooks(s, memberId, AllLibraries).value, s.books, BorrowedBookIdsIn(s, memberId, AllLibraries));
    ListsExactlyMembers(BookRepository.GetBooksByLibraryId(s, libraryId).value, s.books, BookIdsHeldBy(s, libraryId));
  }
}
