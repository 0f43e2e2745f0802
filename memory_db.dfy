/** A synchronous dictionary-backed copy store. */
module MemoryDb {
  import opened Entities
  import opened Catalog

  class BookCopyMemoryDb {
    /** The stored copies, by id. The dictionary holds references: a stored copy changed elsewhere is changed here. */
    var catalog: map<Guid, BookCopy>
    /** The order in which the dictionary enumerates its keys. */
    var order: seq<Guid>

    predicate Valid()
      reads this
    {
      WellFormed(order, catalog)
    }

    /** The records of the stored copies, in enumeration order. */
    function Entries(): (es: seq<CopyRecord>)
      requires Valid()
      reads this, catalog.Values
      ensures |es| == |order|
    {
      Records(ValuesInOrder(order, catalog))
    }

    /** Entry i is the current record of the copy stored under the i-th key, and no two entries share an id. */
    lemma EntriesAreTheStoredRecords()
      requires Valid()
      ensures UniqueIds(Entries())
      ensures forall i | 0 <= i < |order| :: Entries()[i] == catalog[order[i]].Record()
    {
      WellFormedRecordsHaveUniqueIds(order, catalog);
    }

    constructor ()
      ensures Valid() && catalog == map[] && order == []
    {
      catalog := map[];
      order := [];
    }

    /** The stored copies held by `memberId`, in enumeration order. */
    function GetBorrowedBookCopiesByMember(memberId: Guid): (r: seq<BookCopy>)
      requires Valid()
      reads this, catalog.Values
      ensures Records(r) == BorrowedBy(Entries(), memberId)
    {
      BorrowedCopies(ValuesInOrder(order, catalog), memberId)
    }

    /** The borrowed query returns every stored copy held by `memberId`, and only those. */
    lemma BorrowedCopiesAreTheStoredOnes(memberId: Guid)
      requires Valid()
      ensures forall c | c in GetBorrowedBookCopiesByMember(memberId) ::
        c in catalog.Values && c.borrowedToMemberId == Some(memberId)
      ensures forall c | c in catalog.Values && c.borrowedToMemberId == Some(memberId) ::
        c in GetBorrowedBookCopiesByMember(memberId)
    {
      ValuesInOrderAreTheValues(order, catalog);
      BorrowedCopiesAreExact(ValuesInOrder(order, catalog), memberId);
    }

    /** Stores `bookCopy` under its id: an existing entry is removed first, then the copy is added. */
    method SaveBookCopy(bookCopy: BookCopy)
      requires Valid()
      modifies this
      ensures Valid()
      ensures catalog == old(catalog)[bookCopy.id := bookCopy]
      ensures order == OrderAfterSave(old(order), old(catalog), bookCopy.id)
      ensures |catalog| == |old(catalog)| + (if bookCopy.id in old(catalog) then 0 else 1)
    {
      SavePreservesWellFormed(order, catalog, bookCopy);
      RemoveThenAdd(catalog, bookCopy.id, bookCopy);
      ghost var stored := catalog[bookCopy.id := bookCopy];
      var existsCopy := bookCopy.id in catalog;
      if existsCopy {
        catalog := catalog - {bookCopy.id};
      }
      assert bookCopy.id !in catalog;
      catalog := catalog[bookCopy.id := bookCopy];
      assert catalog == stored;
      if !existsCopy {
        order := order + [bookCopy.id];
      }
    }

    /** The stored copies of book `bookIsbn` that nobody holds, in enumeration order. */
    function GetAvailableCopiesByBookId(bookIsbn: Guid): (r: seq<BookCopy>)
      requires Valid()
      reads this, catalog.Values
      ensures Records(r) == AvailableOf(Entries(), bookIsbn)
    {
      AvailableCopies(ValuesInOrder(order, catalog), bookIsbn)
    }

    /** The available query returns every stored, unheld copy of `bookIsbn`, and only those. */
    lemma AvailableCopiesAreTheStoredOnes(bookIsbn: Guid)
      requires Valid()
      ensures forall c | c in GetAvailableCopiesByBookId(bookIsbn) ::
        c in catalog.Values && c.bookIsbn == bookIsbn && c.borrowedToMemberId.None?
      ensures forall c | c in catalog.Values && c.bookIsbn == bookIsbn && c.borrowedToMemberId.None? ::
        c in GetAvailableCopiesByBookId(bookIsbn)
    {
      ValuesInOrderAreTheValues(order, catalog);
      AvailableCopiesAreExact(ValuesInOrder(order, catalog), bookIsbn);
    }
  }
}
