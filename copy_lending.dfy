/**
 * The step both borrowing services end with: loan the chosen copy to the
 * member, then write it back through the in-memory repository.
 */
module CopyLending {
  import opened Entities
  import opened Catalog
  import opened Lending
  import opened InMemoryRepository

  /** The copy taken from the available list is stored under its own id and is the first available copy of the book. */
  lemma ChosenCopyIsStored(repository: BookCopyInMemoryRepository, copyToBorrow: BookCopy, availableCopies: seq<BookCopy>, bookId: Guid)
    requires repository.Valid()
    requires availableCopies == repository.GetAvailableCopiesByBookId(bookId)
    requires |availableCopies| > 0 && copyToBorrow == availableCopies[0]
    ensures copyToBorrow.id in repository.catalog && repository.catalog[copyToBorrow.id] == copyToBorrow
    ensures copyToBorrow.id == AvailableOf(repository.Entries(), bookId)[0].id
    ensures copyToBorrow.bookIsbn == bookId
  {
    repository.AvailableCopiesAreTheStoredOnes(bookId);
    assert copyToBorrow in availableCopies;
    var k :| k in repository.catalog && repository.catalog[k] == copyToBorrow;
    assert Records(availableCopies)[0] == copyToBorrow.Record();
  }

  /** `copyToBorrow.LoanTo(memberId)` followed by `SaveBookCopy(copyToBorrow)`, for a copy the repository stores. */
  method LendCopy(repository: BookCopyInMemoryRepository, copyToBorrow: BookCopy, memberId: Guid)
    requires repository.Valid()
    requires copyToBorrow.id in repository.catalog && repository.catalog[copyToBorrow.id] == copyToBorrow
    modifies repository, copyToBorrow
    ensures repository.Valid()
    ensures repository.catalog == old(repository.catalog)
    ensures repository.order == old(repository.order)
    ensures repository.saved == old(repository.saved) + [copyToBorrow.id]
    ensures copyToBorrow.borrowedToMemberId == Some(memberId)
    ensures repository.Entries() == Lend(old(repository.Entries()), copyToBorrow.id, memberId)
  {
    ghost var values := ValuesInOrder(repository.order, repository.catalog);
    ghost var before := Records(values);
    ghost var p := StoredPosition(repository, values, copyToBorrow, memberId);

    UpdateWithStoredValue(repository.catalog, copyToBorrow.id, copyToBorrow);
    copyToBorrow.LoanTo(memberId);
    repository.SaveBookCopy(copyToBorrow);
    forall i | 0 <= i < |values| && i != p
      ensures values[i].borrowedToMemberId == old(values[i].borrowedToMemberId)
    {
      assert values[i] != copyToBorrow;
    }
    RecordsAfterUpdate(values, before, p, before[p].LoanedTo(memberId));
  }

  /** Where the stored copy sits in the enumeration, and that lending it changes that entry alone. */
  lemma StoredPosition(repository: BookCopyInMemoryRepository, values: seq<BookCopy>, copyToBorrow: BookCopy, memberId: Guid)
    returns (p: nat)
    requires repository.Valid()
    requires values == ValuesInOrder(repository.order, repository.catalog)
    requires copyToBorrow.id in repository.catalog && repository.catalog[copyToBorrow.id] == copyToBorrow
    ensures p < |values| && values[p] == copyToBorrow
    ensures forall i | 0 <= i < |values| && i != p :: values[i] != copyToBorrow
    ensures var es := repository.Entries();
      Lend(es, copyToBorrow.id, memberId) == es[p := es[p].LoanedTo(memberId)]
  {
    repository.EntriesAreTheStoredRecords();
    p :| 0 <= p < |repository.order| && repository.order[p] == copyToBorrow.id;
    LendAt(repository.Entries(), p, memberId);
  }
}
