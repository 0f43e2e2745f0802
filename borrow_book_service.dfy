/**
 * The borrowing service that fetches the available copies first and then
 * runs the eligibility checks over them.
 */
module BorrowBook {
  import opened Entities
  import opened Catalog
  import opened Lending
  import opened InMemoryRepository
  import opened CopyLending

  class BorrowBookService {
    /** The members the member service reports as registered. */
    const registeredMembers: set<Guid>
    const bookCopyRepository: BookCopyInMemoryRepository
    /** The most copies a member may hold at once. */
    const maxBorrowedBooks: nat

    constructor (registeredMembers: set<Guid>, bookCopyRepository: BookCopyInMemoryRepository, maxBorrowedBooks: nat)
      ensures this.registeredMembers == registeredMembers
      ensures this.bookCopyRepository == bookCopyRepository
      ensures this.maxBorrowedBooks == maxBorrowedBooks
    {
      this.registeredMembers := registeredMembers;
      this.bookCopyRepository := bookCopyRepository;
      this.maxBorrowedBooks := maxBorrowedBooks;
    }

    /**
     * Lends the first available copy of `bookId` to `memberId` and returns its id,
     * or ends in the first failed check without touching the repository.
     */
    method BorrowBook(memberId: Guid, bookId: Guid) returns (r: Result<Guid>)
      requires bookCopyRepository.Valid()
      modifies bookCopyRepository, bookCopyRepository.catalog.Values
      ensures bookCopyRepository.Valid()
      ensures bookCopyRepository.catalog == old(bookCopyRepository.catalog)
      ensures bookCopyRepository.order == old(bookCopyRepository.order)
      ensures (r, bookCopyRepository.Entries())
           == Borrow(old(bookCopyRepository.Entries()), memberId in registeredMembers, memberId, bookId, maxBorrowedBooks)
      ensures bookCopyRepository.saved == old(bookCopyRepository.saved) + (if r.Ok? then [r.value] else [])
      ensures r.Ok? ==> && r.value in bookCopyRepository.catalog
                        && bookCopyRepository.catalog[r.value].bookIsbn == bookId
                        && bookCopyRepository.catalog[r.value].borrowedToMemberId == Some(memberId)
    {
      ghost var before := bookCopyRepository.Entries();
      ghost var isRegistered := memberId in registeredMembers;
      var availableCopies := bookCopyRepository.GetAvailableCopiesByBookId(bookId);
      assert |availableCopies| == |AvailableOf(before, bookId)|;

      var rejection := CheckIfMemberCanBorrowBook(memberId, bookId, availableCopies);
      if rejection.Some? {
        BorrowRejected(before, isRegistered, memberId, bookId, maxBorrowedBooks, rejection.value);
        return Err(rejection.value);
      }

      var copyToBorrow := SelectCopyToBorrow(availableCopies);
      ChosenCopyIsStored(bookCopyRepository, copyToBorrow, availableCopies, bookId);
      BorrowAccepted(before, isRegistered, memberId, bookId, maxBorrowedBooks, copyToBorrow.id);
      LendCopy(bookCopyRepository, copyToBorrow, memberId);
      return Ok(copyToBorrow.id);
    }

    /** The member is held to the three checks in their fixed order; None when every check passes. */
    method CheckIfMemberCanBorrowBook(memberId: Guid, bookId: Guid, availableCopies: seq<BookCopy>)
      returns (rejection: Option<BorrowError>)
      requires bookCopyRepository.Valid()
      ensures rejection == Rejection(memberId in registeredMembers, |availableCopies|,
                                     |BorrowedBy(bookCopyRepository.Entries(), memberId)|, maxBorrowedBooks)
    {
      var memberIsRegistered := memberId in registeredMembers;
      if !memberIsRegistered {
        return Some(MemberNotRegistered);
      }

      if |availableCopies| == 0 {
        return Some(NoAvailableBookCopies);
      }

      var borrowedBooksByMember := GetBorrowedBookCopiesByMember(memberId);

      if |borrowedBooksByMember| >= maxBorrowedBooks {
        return Some(MaxBorrowedBooksExceeded);
      }
      return None;
    }

    /** The copies the member holds now, straight from the repository. */
    function GetBorrowedBookCopiesByMember(memberId: Guid): (r: seq<BookCopy>)
      requires bookCopyRepository.Valid()
      reads bookCopyRepository, bookCopyRepository.catalog.Values
      ensures Records(r) == BorrowedBy(bookCopyRepository.Entries(), memberId)
    {
      bookCopyRepository.GetBorrowedBookCopiesByMember(memberId)
    }

    /** Any available copy will do; the first one is taken. */
    function SelectCopyToBorrow(availableCopies: seq<BookCopy>): (r: BookCopy)
      requires |availableCopies| > 0
      ensures r in availableCopies
    {
      availableCopies[0]
    }
  }
}
