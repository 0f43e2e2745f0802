/**
 * What one borrow transaction does to the catalog, stated on the records of
 * the stored copies (in enumeration order), and the properties of it: which
 * error wins, what a successful borrow moves, and the per-member limit it keeps.
 * Both variants of the borrowing service are proved to behave as Borrow says.
 */
module Lending {
  import opened Entities
  import opened Catalog

  /** The three exceptions a borrow can end in. */
  datatype BorrowError = MemberNotRegistered | NoAvailableBookCopies | MaxBorrowedBooksExceeded

  datatype Result<T> = Ok(value: T) | Err(error: BorrowError)

  /** The guard clauses of a borrow, in their order of precedence; None when all pass. */
  function Rejection(isRegistered: bool, availableCount: nat, borrowedCount: nat, maxBorrowedBooks: nat): (r: Option<BorrowError>)
    ensures r.None? <==> isRegistered && availableCount > 0 && borrowedCount < maxBorrowedBooks
  {
    if !isRegistered then Some(MemberNotRegistered)
    else if availableCount == 0 then Some(NoAvailableBookCopies)
    else if borrowedCount >= maxBorrowedBooks then Some(MaxBorrowedBooksExceeded)
    else None
  }

  /** The records after the copy with id `id` is loaned to `memberId`. */
  function Lend(es: seq<CopyRecord>, id: Guid, memberId: Guid): (r: seq<CopyRecord>)
    ensures |r| == |es|
  {
    if es == [] then []
    else [if es[0].id == id then es[0].LoanedTo(memberId) else es[0]] + Lend(es[1..], id, memberId)
  }

  /** Whatever the ids, lending turns every record with that id into its loaned form and leaves every other record as it was. */
  lemma {:induction false} LendIsPointwise(es: seq<CopyRecord>, id: Guid, memberId: Guid)
    ensures forall i | 0 <= i < |es| ::
      Lend(es, id, memberId)[i] == if es[i].id == id then es[i].LoanedTo(memberId) else es[i]
  {
    if es != [] {
      LendIsPointwise(es[1..], id, memberId);
      forall i | 1 <= i < |es|
        ensures Lend(es, id, memberId)[i] == Lend(es[1..], id, memberId)[i - 1]
      {
      }
    }
  }

  /** When ids are unique, lending changes exactly the one record with that id. */
  lemma {:induction false} LendAt(es: seq<CopyRecord>, p: nat, memberId: Guid)
    requires UniqueIds(es) && p < |es|
    ensures Lend(es, es[p].id, memberId) == es[p := es[p].LoanedTo(memberId)]
  {
    if p == 0 {
      LendAbsent(es[1..], es[0].id, memberId);
    } else {
      LendAt(es[1..], p - 1, memberId);
      assert es[p := es[p].LoanedTo(memberId)] == [es[0]] + es[1..][p - 1 := es[p].LoanedTo(memberId)];
    }
  }

  lemma {:induction false} LendAbsent(es: seq<CopyRecord>, id: Guid, memberId: Guid)
    requires forall i | 0 <= i < |es| :: es[i].id != id
    ensures Lend(es, id, memberId) == es
  {
    if es != [] {
      LendAbsent(es[1..], id, memberId);
    }
  }

  /**
   * One borrow of book `bookId` by `memberId` against the records `es`: the
   * outcome, and the records afterwards. The copy lent is the first available one.
   */
  function Borrow(es: seq<CopyRecord>, isRegistered: bool, memberId: Guid, bookId: Guid, maxBorrowedBooks: nat): (outcome: (Result<Guid>, seq<CopyRecord>))
    ensures outcome.0.Err? ==> outcome.1 == es
    ensures outcome.0.Ok? ==> |AvailableOf(es, bookId)| > 0 && outcome.0.value == AvailableOf(es, bookId)[0].id
  {
    var available := AvailableOf(es, bookId);
    match Rejection(isRegistered, |available|, |BorrowedBy(es, memberId)|, maxBorrowedBooks)
    case Some(e) => (Err(e), es)
    case None => (Ok(available[0].id), Lend(es, available[0].id, memberId))
  }

  /** A borrow that fails a check ends in that check's error and leaves the records alone. */
  lemma BorrowRejected(es: seq<CopyRecord>, isRegistered: bool, memberId: Guid, bookId: Guid, maxBorrowedBooks: nat, e: BorrowError)
    requires Rejection(isRegistered, |AvailableOf(es, bookId)|, |BorrowedBy(es, memberId)|, maxBorrowedBooks) == Some(e)
    ensures Borrow(es, isRegistered, memberId, bookId, maxBorrowedBooks) == (Err(e), es)
  {
  }

  /** A borrow that passes every check lends the first available copy. */
  lemma BorrowAccepted(es: seq<CopyRecord>, isRegistered: bool, memberId: Guid, bookId: Guid, maxBorrowedBooks: nat, id: Guid)
    requires Rejection(isRegistered, |AvailableOf(es, bookId)|, |BorrowedBy(es, memberId)|, maxBorrowedBooks).None?
    requires |AvailableOf(es, bookId)| > 0 && AvailableOf(es, bookId)[0].id == id
    ensures Borrow(es, isRegistered, memberId, bookId, maxBorrowedBooks) == (Ok(id), Lend(es, id, memberId))
  {
  }

  /** Not registered beats no copies, which beats the limit; a rejected borrow changes nothing. */
  lemma BorrowErrorPrecedence(es: seq<CopyRecord>, isRegistered: bool, memberId: Guid, bookId: Guid, maxBorrowedBooks: nat)
    ensures var (r, es') := Borrow(es, isRegistered, memberId, bookId, maxBorrowedBooks);
      && (!isRegistered ==> r == Err(MemberNotRegistered))
      && (isRegistered && |AvailableOf(es, bookId)| == 0 ==> r == Err(NoAvailableBookCopies))
      && (isRegistered && |AvailableOf(es, bookId)| > 0 && |BorrowedBy(es, memberId)| >= maxBorrowedBooks
          ==> r == Err(MaxBorrowedBooksExceeded))
      && (r.Ok? <==> isRegistered && |AvailableOf(es, bookId)| > 0 && |BorrowedBy(es, memberId)| < maxBorrowedBooks)
      && (r.Err? ==> es' == es)
  {
  }

  lemma {:induction false} AvailableAfterUpdate(es: seq<CopyRecord>, p: nat, x: CopyRecord, bookId: Guid)
    requires p < |es|
    ensures |AvailableOf(es[p := x], bookId)| + (if IsAvailableCopyOf(es[p], bookId) then 1 else 0)
         == |AvailableOf(es, bookId)| + (if IsAvailableCopyOf(x, bookId) then 1 else 0)
    ensures !IsAvailableCopyOf(es[p], bookId) && !IsAvailableCopyOf(x, bookId)
         ==> AvailableOf(es[p := x], bookId) == AvailableOf(es, bookId)
  {
    if p == 0 {
      assert es[p := x][1..] == es[1..];
    } else {
      AvailableAfterUpdate(es[1..], p - 1, x, bookId);
      assert es[p := x][1..] == es[1..][p - 1 := x];
    }
  }

  lemma {:induction false} BorrowedAfterUpdate(es: seq<CopyRecord>, p: nat, x: CopyRecord, memberId: Guid)
    requires p < |es|
    ensures |BorrowedBy(es[p := x], memberId)| + (if IsHeldBy(es[p], memberId) then 1 else 0)
         == |BorrowedBy(es, memberId)| + (if IsHeldBy(x, memberId) then 1 else 0)
    ensures !IsHeldBy(es[p], memberId) && !IsHeldBy(x, memberId)
         ==> BorrowedBy(es[p := x], memberId) == BorrowedBy(es, memberId)
  {
    if p == 0 {
      assert es[p := x][1..] == es[1..];
    } else {
      BorrowedAfterUpdate(es[1..], p - 1, x, memberId);
      assert es[p := x][1..] == es[1..][p - 1 := x];
    }
  }

  /** Loaning an available copy of `bookId` takes it off that book's available list and off no other's. */
  lemma LoanLeavesAvailable(es: seq<CopyRecord>, p: nat, memberId: Guid, bookId: Guid)
    requires UniqueIds(es) && p < |es| && IsAvailableCopyOf(es[p], bookId)
    ensures var es' := es[p := es[p].LoanedTo(memberId)];
      && |AvailableOf(es', bookId)| == |AvailableOf(es, bookId)| - 1
      && (forall b :: forall c | c in AvailableOf(es', b) :: c.id != es[p].id)
      && (forall b | b != bookId :: AvailableOf(es', b) == AvailableOf(es, b))
  {
    var x := es[p].LoanedTo(memberId);
    var es' := es[p := x];
    AvailableAfterUpdate(es, p, x, bookId);
    forall b | b != bookId
      ensures AvailableOf(es', b) == AvailableOf(es, b)
    {
      AvailableAfterUpdate(es, p, x, b);
    }
    forall b, c | c in AvailableOf(es', b)
      ensures c.id != es[p].id
    {
      var i :| 0 <= i < |es'| && es'[i] == c;
      assert i != p;
    }
  }

  /** Loaning a copy nobody holds adds it to the member's borrowed list and to no one else's. */
  lemma LoanJoinsBorrowed(es: seq<CopyRecord>, p: nat, memberId: Guid)
    requires p < |es| && es[p].IsAvailable()
    ensures var es' := es[p := es[p].LoanedTo(memberId)];
      && |BorrowedBy(es', memberId)| == |BorrowedBy(es, memberId)| + 1
      && es'[p] in BorrowedBy(es', memberId)
      && (forall m | m != memberId :: BorrowedBy(es', m) == BorrowedBy(es, m))
  {
    var x := es[p].LoanedTo(memberId);
    var es' := es[p := x];
    BorrowedAfterUpdate(es, p, x, memberId);
    forall m | m != memberId
      ensures BorrowedBy(es', m) == BorrowedBy(es, m)
    {
      BorrowedAfterUpdate(es, p, x, m);
    }
  }

  /** Loaning a copy changes no id, so the ids stay unique. */
  lemma LoanKeepsUniqueIds(es: seq<CopyRecord>, p: nat, memberId: Guid)
    requires UniqueIds(es) && p < |es|
    ensures UniqueIds(es[p := es[p].LoanedTo(memberId)])
  {
    var es' := es[p := es[p].LoanedTo(memberId)];
    assert forall i | 0 <= i < |es| :: es'[i].id == es[i].id;
  }

  /** Where the copy a successful borrow lends sits, and the records the borrow leaves. */
  lemma AcceptedBorrowPosition(es: seq<CopyRecord>, memberId: Guid, bookId: Guid, maxBorrowedBooks: nat) returns (p: nat)
    requires UniqueIds(es)
    requires Borrow(es, true, memberId, bookId, maxBorrowedBooks).0.Ok?
    ensures p < |es| && es[p] == AvailableOf(es, bookId)[0] && IsAvailableCopyOf(es[p], bookId)
    ensures Borrow(es, true, memberId, bookId, maxBorrowedBooks) == (Ok(es[p].id), es[p := es[p].LoanedTo(memberId)])
  {
    var chosen := AvailableOf(es, bookId)[0];
    assert chosen in AvailableOf(es, bookId);
    p :| 0 <= p < |es| && es[p] == chosen;
    LendAt(es, p, memberId);
  }

  /**
   * A successful borrow lends the first available copy: that copy leaves the
   * book's available list and joins the member's borrowed list, and no other
   * book's availability and no other member's holdings change.
   */
  lemma SuccessfulBorrowMovesOneCopy(es: seq<CopyRecord>, memberId: Guid, bookId: Guid, maxBorrowedBooks: nat)
    requires UniqueIds(es)
    ensures var (r, es') := Borrow(es, true, memberId, bookId, maxBorrowedBooks);
      r.Ok? ==>
        && r.value == AvailableOf(es, bookId)[0].id
        && CopyRecord(r.value, bookId, None) in AvailableOf(es, bookId)
        && CopyRecord(r.value, bookId, Some(memberId)) in BorrowedBy(es', memberId)
        && |AvailableOf(es', bookId)| == |AvailableOf(es, bookId)| - 1
        && |BorrowedBy(es', memberId)| == |BorrowedBy(es, memberId)| + 1
        && (forall b :: forall c | c in AvailableOf(es', b) :: c.id != r.value)
        && (forall b | b != bookId :: AvailableOf(es', b) == AvailableOf(es, b))
        && (forall m | m != memberId :: BorrowedBy(es', m) == BorrowedBy(es, m))
        && UniqueIds(es')
  {
    var (r, es') := Borrow(es, true, memberId, bookId, maxBorrowedBooks);
    if r.Ok? {
      var p := AcceptedBorrowPosition(es, memberId, bookId, maxBorrowedBooks);
      LoanLeavesAvailable(es, p, memberId, bookId);
      LoanJoinsBorrowed(es, p, memberId);
      LoanKeepsUniqueIds(es, p, memberId);
    }
  }

  /** Holding at most `maxBorrowedBooks` copies is an invariant of every member across a borrow. */
  lemma BorrowKeepsTheLimit(es: seq<CopyRecord>, isRegistered: bool, memberId: Guid, bookId: Guid, maxBorrowedBooks: nat)
    requires UniqueIds(es)
    requires forall m :: |BorrowedBy(es, m)| <= maxBorrowedBooks
    ensures var (_, es') := Borrow(es, isRegistered, memberId, bookId, maxBorrowedBooks);
      forall m :: |BorrowedBy(es', m)| <= maxBorrowedBooks
  {
    var (r, es') := Borrow(es, isRegistered, memberId, bookId, maxBorrowedBooks);
    if r.Ok? {
      SuccessfulBorrowMovesOneCopy(es, memberId, bookId, maxBorrowedBooks);
      forall m
        ensures |BorrowedBy(es', m)| <= maxBorrowedBooks
      {
        if m != memberId {
          assert BorrowedBy(es', m) == BorrowedBy(es, m);
        }
      }
    }
  }

  /**
   * A registered member with no loans borrowing one of k available copies ends
   * with exactly that copy borrowed, and k - 1 copies stay available.
   */
  lemma FirstBorrowOfAMember(es: seq<CopyRecord>, memberId: Guid, bookId: Guid, maxBorrowedBooks: nat)
    requires UniqueIds(es) && maxBorrowedBooks > 0
    requires |AvailableOf(es, bookId)| > 0 && |BorrowedBy(es, memberId)| == 0
    ensures var (r, es') := Borrow(es, true, memberId, bookId, maxBorrowedBooks);
      && r.Ok?
      && BorrowedBy(es', memberId) == [CopyRecord(r.value, bookId, Some(memberId))]
      && |AvailableOf(es', bookId)| == |AvailableOf(es, bookId)| - 1
  {
    var p := AcceptedBorrowPosition(es, memberId, bookId, maxBorrowedBooks);
    var es' := es[p := es[p].LoanedTo(memberId)];
    BorrowedAfterUpdate(es, p, es'[p], memberId);
    AvailableAfterUpdate(es, p, es'[p], bookId);
    var borrowed := BorrowedBy(es', memberId);
    assert |borrowed| == 1 && es'[p] in borrowed;
    OnlyElement(borrowed, es'[p]);
  }

  lemma OnlyElement(s: seq<CopyRecord>, x: CopyRecord)
    requires |s| == 1 && x in s
    ensures s == [x]
  {
  }

  /** With a single available copy, the first borrow succeeds and a second one finds none left. */
  lemma LastCopyCanBeBorrowedOnce(es: seq<CopyRecord>, memberId: Guid, bookId: Guid, maxBorrowedBooks: nat)
    requires UniqueIds(es)
    requires |AvailableOf(es, bookId)| == 1 && |BorrowedBy(es, memberId)| < maxBorrowedBooks
    ensures var (r1, es1) := Borrow(es, true, memberId, bookId, maxBorrowedBooks);
      var (r2, es2) := Borrow(es1, true, memberId, bookId, maxBorrowedBooks);
      r1.Ok? && r2 == Err(NoAvailableBookCopies) && es2 == es1
  {
    SuccessfulBorrowMovesOneCopy(es, memberId, bookId, maxBorrowedBooks);
  }
}
