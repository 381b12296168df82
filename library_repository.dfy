/**
  The library repository: the `library` table and a library's holdings in
  `library_books`. Each operation is one transaction.
*/
module LibraryRepository {
  import opened Rows
  import opened Schema

  /**
    `create_library`: insert one row stamped `now` twice. The code does not look
    `managerId` up; only an enforced foreign key can refuse it.
  */
  method CreateLibrary(store: Store, name: string, address: string, managerId: i32, now: string) returns (r: Result<nat>)
    requires store.Valid()
    modifies store
    ensures store.Valid()
    ensures LibraryTable !in old(store.tables) ==> r == Err(NoSuchTable)
    ensures LibraryTable in old(store.tables) ==>
      if store.foreignKeys && managerId as int !in old(store.members) then r == Err(ForeignKeyViolation) else r == Ok(1)
    ensures r.Err? ==> store.State() == old(store.State())
    ensures var s := old(store.State()); var id := s.lastLibraryId + 1;
      r.Ok? ==> store.State() == s.(library := s.library[id := LibraryFields(name, address, now, now, managerId)],
                                    lastLibraryId := id)
    ensures r.Ok? ==> forall k :: k in old(store.library) ==> k < store.lastLibraryId
  {
    if LibraryTable !in store.tables {
      return Err(NoSuchTable);
    }
    if store.foreignKeys && managerId as int !in store.members {
      return Err(ForeignKeyViolation);
    }
    var id := store.lastLibraryId + 1;
    store.library, store.lastLibraryId := store.library[id := LibraryFields(name, address, now, now, managerId)], id;
    r := Ok(1);
  }

  /** `get_libraries`: every row, in id order. */
  function GetLibraries(s: Db): (r: Result<seq<Library>>)
    requires Consistent(s)
    ensures r.Err? <==> LibraryTable !in s.tables
    ensures r.Err? ==> r.error == NoSuchTable
    ensures r.Ok? ==> ListsExactly(r.value, s.library, s.library.Keys)
  {
    if LibraryTable !in s.tables then Err(NoSuchTable)
    else
      ListingIsExact(s.library, s.library.Keys, 1, s.lastLibraryId);
      Ok(Listing(s.library, s.library.Keys, 1, s.lastLibraryId))
  }

  /** `get_library_by_id`: the row with that id, or NotFound. */
  function GetLibraryById(s: Db, id: i32): (r: Result<Library>)
    ensures r.Ok? ==> r.value.id == id && id in s.library && r.value.fields == s.library[id]
    ensures r.Err? <==> LibraryTable !in s.tables || id !in s.library
    ensures r.Err? ==> r.error == if LibraryTable in s.tables then NotFound else NoSuchTable
  {
    if LibraryTable !in s.tables then Err(NoSuchTable)
    else if id in s.library then Ok(Row(id, s.library[id]))
    else Err(NotFound)
  }

  /** A lookup by id finds exactly the rows the full listing shows. */
  lemma GetLibraryByIdAgreesWithGetLibraries(s: Db, id: i32)
    requires Consistent(s) && LibraryTable in s.tables
    ensures GetLibraryById(s, id).Ok? <==> exists l :: l in GetLibraries(s).value && l.id == id
    ensures GetLibraryById(s, id).Ok? ==> GetLibraryById(s, id).value in GetLibraries(s).value
  {
    ListsExactlyMembers(GetLibraries(s).value, s.library, s.library.Keys);
    if id in s.library {
      assert Row(id, s.library[id]) in GetLibraries(s).value;
    }
  }

  /**
    `update_library`: set name, address and manager of the row with that id.
    `updated_at` is not refreshed; an unknown id changes nothing and reports 0.
  */
  method UpdateLibrary(store: Store, id: i32, name: string, address: string, managerId: i32) returns (r: Result<nat>)
    requires store.Valid()
    modifies store
    ensures store.Valid()
    ensures LibraryTable !in old(store.tables) ==> r == Err(NoSuchTable) && store.State() == old(store.State())
    ensures LibraryTable in old(store.tables) && id !in old(store.library) ==> r == Ok(0) && store.State() == old(store.State())
    ensures var s := old(store.State());
      LibraryTable in s.tables && id in s.library ==>
        if s.foreignKeys && managerId as int !in s.members then r == Err(ForeignKeyViolation) && store.State() == s
        else r == Ok(1) && store.State() == s.(library := s.library[id := s.library[id].(name := name, address := address, managerId := managerId)])
  {
    if LibraryTable !in store.tables {
      return Err(NoSuchTable);
    }
    if id !in store.library {
      return Ok(0);
    }
    if store.foreignKeys && managerId as int !in store.members {
      return Err(ForeignKeyViolation);
    }
    store.library := store.library[id := store.library[id].(name := name, address := address, managerId := managerId)];
    r := Ok(1);
  }

  /** Holdings and roster rows that still name a library. */
  predicate LibraryReferenced(s: Db, id: int)
  {
    (exists p :: p in s.libraryBooks && p.0 == id) || (exists p :: p in s.libraryMembers && p.0 == id)
  }

  /**
    `delete_library`: remove the `library` row only; its `library_books` rows stay.
    With foreign keys enforced, a library still referenced cannot be deleted.
  */
  method DeleteLibrary(store: Store, id: i32) returns (r: Result<nat>)
    requires store.Valid()
    modifies store
    ensures store.Valid()
    ensures store.libraryBooks == old(store.libraryBooks) && store.libraryMembers == old(store.libraryMembers)
    ensures LibraryTable !in old(store.tables) ==> r == Err(NoSuchTable) && store.State() == old(store.State())
    ensures LibraryTable in old(store.tables) && id !in old(store.library) ==> r == Ok(0) && store.State() == old(store.State())
    ensures var s := old(store.State());
      LibraryTable in s.tables && id in s.library ==>
        if s.foreignKeys && LibraryReferenced(s, id) then r == Err(ForeignKeyViolation) && store.State() == s
        else r == Ok(1) && store.State() == s.(library := s.library - {id})
  {
    if LibraryTable !in store.tables {
      return Err(NoSuchTable);
    }
    if id !in store.library {
      return Ok(0);
    }
    if store.foreignKeys && LibraryReferenced(store.State(), id) {
      return Err(ForeignKeyViolation);
    }
    store.library := store.library - {id};
    r := Ok(1);
  }

  /**
    `add_book`: insert (library, book, quantity 1). The pair is the table's
    primary key, so a second `add_book` for it fails and changes nothing.
  */
  method AddBook(store: Store, libraryId: i32, bookId: i32) returns (r: Result<nat>)
    requires store.Valid()
    modifies store
    ensures store.Valid()
    ensures LibraryBooksTable !in old(store.tables) ==> r == Err(NoSuchTable)
    ensures LibraryBooksTable in old(store.tables) && (libraryId as int, bookId as int) in old(store.libraryBooks) ==>
      r == Err(UniqueViolation)
    ensures LibraryBooksTable in old(store.tables) && (libraryId as int, bookId as int) !in old(store.libraryBooks) ==>
      if store.foreignKeys && (libraryId as int !in old(store.library) || bookId as int !in old(store.books))
      then r == Err(ForeignKeyViolation) else r == Ok(1)
    ensures r.Err? ==> store.State() == old(store.State())
    ensures var s := old(store.State());
      r.Ok? ==> store.State() == s.(libraryBooks := s.libraryBooks[(libraryId as int, bookId as int) := 1])
  {
    if LibraryBooksTable !in store.tables {
      return Err(NoSuchTable);
    }
    var key := (libraryId as int, bookId as int);
    if key in store.libraryBooks {
      return Err(UniqueViolation);
    }
    if store.foreignKeys && (libraryId as int !in store.library || bookId as int !in store.books) {
      return Err(ForeignKeyViolation);
    }
    store.libraryBooks := store.libraryBooks[key := 1];
    r := Ok(1);
  }

  /**
    `add_book_quantity`: overwrite the quantity of an existing (library, book)
    row with `quantity`; it does not add to it, and a missing pair reports 0 and
    creates nothing.
  */
  method AddBookQuantity(store: Store, libraryId: i32, bookId: i32, quantity: i32) returns (r: Result<nat>)
    requires store.Valid()
    modifies store
    ensures store.Valid()
    ensures LibraryBooksTable !in old(store.tables) ==> r == Err(NoSuchTable) && store.State() == old(store.State())
    ensures LibraryBooksTable in old(store.tables) && (libraryId as int, bookId as int) !in old(store.libraryBooks) ==>
      r == Ok(0) && store.State() == old(store.State())
    ensures var s := old(store.State());
      LibraryBooksTable in s.tables && (libraryId as int, bookId as int) in s.libraryBooks ==>
        r == Ok(1) && store.State() == s.(libraryBooks := s.libraryBooks[(libraryId as int, bookId as int) := quantity as int])
  {
    if LibraryBooksTable !in store.tables {
      return Err(NoSuchTable);
    }
    var key := (libraryId as int, bookId as int);
    if key !in store.libraryBooks {
      return Ok(0);
    }
    store.libraryBooks := store.libraryBooks[key := quantity as int];
    r := Ok(1);
  }
}
