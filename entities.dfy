/** The entity of the lending core: a physical copy of a book. */
module Entities {

  /** Opaque identifiers (members, books and copies are all identified by GUIDs). */
  type Guid(==, !new)

  datatype Option<T> = None | Some(value: T)

  /** The value of a copy's three properties at one moment. */
  datatype CopyRecord = CopyRecord(id: Guid, bookIsbn: Guid, borrowedToMemberId: Option<Guid>)
  {
    /** A copy with no holder is available. */
    predicate IsAvailable() {
      borrowedToMemberId.None?
    }

    /** The record after the copy is loaned to `memberId`. */
    function LoanedTo(memberId: Guid): (r: CopyRecord)
      ensures r.id == id && r.bookIsbn == bookIsbn
      ensures r.borrowedToMemberId == Some(memberId) && !r.IsAvailable()
    {
      this.(borrowedToMemberId := Some(memberId))
    }
  }

  /** Loaning twice to the same member leaves the copy as loaning it once does. */
  lemma LoanToIsIdempotent(c: CopyRecord, memberId: Guid)
    ensures c.LoanedTo(memberId).LoanedTo(memberId) == c.LoanedTo(memberId)
  {
  }

  /** The last loan wins: the holder is whoever the copy was loaned to last. */
  lemma LastLoanWins(c: CopyRecord, first: Guid, second: Guid)
    ensures c.LoanedTo(first).LoanedTo(second) == c.LoanedTo(second)
  {
  }

  /**
   * A copy of a book. Its holder is absent while the copy is available and is
   * set only through LoanTo; nothing in the core clears it.
   */
  class BookCopy {
    const id: Guid
    const bookIsbn: Guid
    var borrowedToMemberId: Option<Guid>

    /** A new copy of book `bookIsbn`, held by nobody. */
    constructor (id: Guid, bookIsbn: Guid)
      ensures this.id == id && this.bookIsbn == bookIsbn
      ensures borrowedToMemberId == None && Record().IsAvailable()
    {
      this.id := id;
      this.bookIsbn := bookIsbn;
      borrowedToMemberId := None;
    }

    function Record(): (r: CopyRecord)
      reads this
    {
      CopyRecord(id, bookIsbn, borrowedToMemberId)
    }

    /** Marks the copy as loaned to `memberId`, whether or not it was held before. */
    method LoanTo(memberId: Guid)
      modifies this
      ensures borrowedToMemberId == Some(memberId)
      ensures Record() == old(Record()).LoanedTo(memberId)
    {
      borrowedToMemberId := Some(memberId);
    }
  }
}
