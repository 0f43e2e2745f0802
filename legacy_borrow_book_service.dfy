/**
 * The older borrowing service: it checks registration before it queries the
 * repository, and runs the remaining checks inline.
 */
module Services {
  import opened Entities
  import opened Catalog
  import opened Lending
  import opened InMemoryRepository
  import opened CopyLending

  class BorrowBookService {
    /** The members the member service reports as registered. */
    const registeredMembers: set<Guid>
    const bookCopyRepository: BookCopyInMemoryRepository
    /** The most copies a member may hold at once. */
    const maxBorrowedBooks: nat

    constructor (registeredMembers: set<Guid>, bookCopyRepository: BookCopyInMemoryRepository, maxBorrowedBooks: nat)
      ensures this.registeredMembers == registeredMembers
      ensures this.bookCopyRepository == bookCopyRepository
      ensures this.maxBorrowedBooks == maxBorrowedBooks
    {
      this.registeredMembers := registeredMembers;
      this.bookCopyRepository := bookCopyRepository;
      this.maxBorrowedBooks := maxBorrowedBooks;
    }

    /**
     * Lends the first available copy of `bookId` to `memberId` and returns its id,
     * or ends in the first failed check without touching the repository. The
     * outcome is the same as the newer service's, on every input.
     */
    method BorrowBook(memberId: Guid, bookId: Guid) returns (r: Result<Guid>)
      requires bookCopyRepository.Valid()
      modifies bookCopyRepository, bookCopyRepository.catalog.Values
      ensures bookCopyRepository.Valid()
      ensures bookCopyRepository.catalog == old(bookCopyRepository.catalog)
      ensures bookCopyRepository.order == old(bookCopyRepository.order)
      ensures (r, bookCopyRepository.Entries())
           == Borrow(old(bookCopyRepository.Entries()), memberId in registeredMembers, memberId, bookId, maxBorrowedBooks)
      ensures bookCopyRepository.saved == old(bookCopyRepository.saved) + (if r.Ok? then [r.value] else [])
      ensures r.Ok? ==> && r.value in bookCopyRepository.catalog
                        && bookCopyRepository.catalog[r.value].bookIsbn == bookId
                        && bookCopyRepository.catalog[r.value].borrowedToMemberId == Some(memberId)
    {
      ghost var before := bookCopyRepository.Entries();
      var memberIsRegistered := memberId in registeredMembers;
      if !memberIsRegistered {
        BorrowRejected(before, memberIsRegistered, memberId, bookId, maxBorrowedBooks, MemberNotRegistered);
        return Err(MemberNotRegistered);
      }

      var availableCopies := bookCopyRepository.GetAvailableCopiesByBookId(bookId);
      assert |availableCopies| == |AvailableOf(before, bookId)|;
      if |availableCopies| == 0 {
        BorrowRejected(before, memberIsRegistered, memberId, bookId, maxBorrowedBooks, NoAvailableBookCopies);
        return Err(NoAvailableBookCopies);
      }

      var borrowedBooksByMember := GetBorrowedBookCopiesByMember(memberId);
      assert |borrowedBooksByMember| == |BorrowedBy(before, memberId)|;
      if |borrowedBooksByMember| >= maxBorrowedBooks {
        BorrowRejected(before, memberIsRegistered, memberId, bookId, maxBorrowedBooks, MaxBorrowedBooksExceeded);
        return Err(MaxBorrowedBooksExceeded);
      }

      var copyToBorrow := SelectCopyToBorrow(availableCopies);
      ChosenCopyIsStored(bookCopyRepository, copyToBorrow, availableCopies, bookId);
      BorrowAccepted(before, memberIsRegistered, memberId, bookId, maxBorrowedBooks, copyToBorrow.id);
      LendCopy(bookCopyRepository, copyToBorrow, memberId);
      return Ok(copyToBorrow.id);
    }

    /** Any available copy will do; the first one is taken. */
    function SelectCopyToBorrow(availableCopies: seq<BookCopy>): (r: BookCopy)
      requires |availableCopies| > 0
      ensures r in availableCopies
    {
      availableCopies[0]
    }

    /** The copies the member holds now, straight from the repository. */
    function GetBorrowedBookCopiesByMember(memberId: Guid): (r: seq<BookCopy>)
      requires bookCopyRepository.Valid()
      reads bookCopyRepository, bookCopyRepository.catalog.Values
      ensures Records(r) == BorrowedBy(bookCopyRepository.Entries(), memberId)
    {
      bookCopyRepository.GetBorrowedBookCopiesByMember(memberId)
    }
  }
}
