/**
 * The dictionary every in-memory repository keeps: copy id -> copy, together
 * with the order in which the dictionary enumerates its values, and the two
 * filters (available copies of a book, copies held by a member) that the
 * repositories run over those values.
 *
 * A dictionary entry that is removed and then added again takes back the slot
 * its removal freed, so an upsert of an existing id keeps that id's place in
 * the enumeration; a new id is enumerated last.
 */
module Catalog {
  import opened Entities

  /** `order` enumerates the keys of `catalog`, each exactly once, and every key is the id of its copy. */
  predicate WellFormed(order: seq<Guid>, catalog: map<Guid, BookCopy>) {
    && (forall i, j | 0 <= i < j < |order| :: order[i] != order[j])
    && (forall k | k in catalog :: k in order)
    && (forall i | 0 <= i < |order| :: order[i] in catalog)
    && (forall k | k in catalog :: catalog[k].id == k)
  }

  /** The stored copies, in enumeration order (the dictionary's `Values`). */
  function ValuesInOrder(order: seq<Guid>, catalog: map<Guid, BookCopy>): (r: seq<BookCopy>)
    requires forall i | 0 <= i < |order| :: order[i] in catalog
    ensures |r| == |order|
    ensures forall i | 0 <= i < |order| :: r[i] == catalog[order[i]]
  {
    seq(|order|, i requires 0 <= i < |order| => catalog[order[i]])
  }

  /** The enumeration visits exactly the stored copies. */
  lemma ValuesInOrderAreTheValues(order: seq<Guid>, catalog: map<Guid, BookCopy>)
    requires WellFormed(order, catalog)
    ensures forall c :: c in ValuesInOrder(order, catalog) <==> c in catalog.Values
  {
    var vs := ValuesInOrder(order, catalog);
    forall c | c in catalog.Values
      ensures c in vs
    {
      var k :| k in catalog && catalog[k] == c;
      var i :| 0 <= i < |order| && order[i] == k;
      assert vs[i] == c;
    }
  }

  /** The current value of each copy of `cs`, position by position. */
  function Records(cs: seq<BookCopy>): (r: seq<CopyRecord>)
    reads cs
    ensures |r| == |cs|
    ensures forall i | 0 <= i < |cs| :: r[i] == cs[i].Record()
  {
    if cs == [] then [] else [cs[0].Record()] + Records(cs[1..])
  }

  lemma RecordsAppend(a: seq<BookCopy>, b: seq<BookCopy>)
    ensures Records(a + b) == Records(a) + Records(b)
  {
    assert forall i | 0 <= i < |a + b| :: Records(a + b)[i] == (Records(a) + Records(b))[i];
  }

  /** When only copy p has changed, the records are the old ones with entry p replaced. */
  lemma RecordsAfterUpdate(cs: seq<BookCopy>, before: seq<CopyRecord>, p: nat, x: CopyRecord)
    requires |cs| == |before| && p < |cs|
    requires forall i | 0 <= i < |cs| && i != p :: cs[i].Record() == before[i]
    requires cs[p].Record() == x
    ensures Records(cs) == before[p := x]
  {
  }

  /** The records of a well-formed catalog never share an id. */
  predicate UniqueIds(es: seq<CopyRecord>) {
    forall i, j | 0 <= i < j < |es| :: es[i].id != es[j].id
  }

  lemma WellFormedRecordsHaveUniqueIds(order: seq<Guid>, catalog: map<Guid, BookCopy>)
    requires WellFormed(order, catalog)
    ensures UniqueIds(Records(ValuesInOrder(order, catalog)))
    ensures forall i | 0 <= i < |order| :: Records(ValuesInOrder(order, catalog))[i].id == order[i]
  {
    var es := Records(ValuesInOrder(order, catalog));
    forall i | 0 <= i < |order|
      ensures es[i].id == order[i]
    {
      assert es[i] == catalog[order[i]].Record();
    }
  }

  predicate IsAvailableCopyOf(c: CopyRecord, bookIsbn: Guid) {
    c.bookIsbn == bookIsbn && c.IsAvailable()
  }

  predicate IsHeldBy(c: CopyRecord, memberId: Guid) {
    c.borrowedToMemberId == Some(memberId)
  }

  /** The records of the available copies of `bookIsbn`, in enumeration order. */
  function AvailableOf(es: seq<CopyRecord>, bookIsbn: Guid): (r: seq<CopyRecord>)
    ensures forall c :: c in r <==> c in es && IsAvailableCopyOf(c, bookIsbn)
    ensures |r| <= |es|
  {
    if es == [] then []
    else (if IsAvailableCopyOf(es[0], bookIsbn) then [es[0]] else []) + AvailableOf(es[1..], bookIsbn)
  }

  /** The records of the copies held by `memberId`, in enumeration order. */
  function BorrowedBy(es: seq<CopyRecord>, memberId: Guid): (r: seq<CopyRecord>)
    ensures forall c :: c in r <==> c in es && IsHeldBy(c, memberId)
    ensures |r| <= |es|
  {
    if es == [] then []
    else (if IsHeldBy(es[0], memberId) then [es[0]] else []) + BorrowedBy(es[1..], memberId)
  }

  /** No record is both available and held, whatever the book and the member. */
  lemma AvailableAndBorrowedAreDisjoint(es: seq<CopyRecord>, bookIsbn: Guid, memberId: Guid)
    ensures forall c :: !(c in AvailableOf(es, bookIsbn) && c in BorrowedBy(es, memberId))
  {
  }

  /** `Where(b => bookIsbn == b.BookIsbn && !b.BorrowedToMemberId.HasValue)` over `cs`: in the value view, AvailableOf. */
  function AvailableCopies(cs: seq<BookCopy>, bookIsbn: Guid): (r: seq<BookCopy>)
    reads cs
    ensures Records(r) == AvailableOf(Records(cs), bookIsbn)
  {
    if cs == [] then []
    else
      var head := if cs[0].bookIsbn == bookIsbn && cs[0].borrowedToMemberId.None? then [cs[0]] else [];
      var tail := AvailableCopies(cs[1..], bookIsbn);
      RecordsAppend(head, tail);
      assert Records(cs)[1..] == Records(cs[1..]);
      head + tail
  }

  /** The available filter keeps exactly the unheld copies of the book, as objects. */
  lemma {:induction false} AvailableCopiesAreExact(cs: seq<BookCopy>, bookIsbn: Guid)
    ensures forall c | c in AvailableCopies(cs, bookIsbn) :: c in cs && c.bookIsbn == bookIsbn && c.borrowedToMemberId.None?
    ensures forall i | 0 <= i < |cs| && cs[i].bookIsbn == bookIsbn && cs[i].borrowedToMemberId.None? ::
      cs[i] in AvailableCopies(cs, bookIsbn)
  {
    if cs != [] {
      AvailableCopiesAreExact(cs[1..], bookIsbn);
      var head := if cs[0].bookIsbn == bookIsbn && cs[0].borrowedToMemberId.None? then [cs[0]] else [];
      assert AvailableCopies(cs, bookIsbn) == head + AvailableCopies(cs[1..], bookIsbn);
      forall i | 1 <= i < |cs|
        ensures cs[i] == cs[1..][i - 1]
      {
      }
    }
  }

  /** `Where(b => memberId.Equals(b.BorrowedToMemberId))` over `cs`: in the value view, BorrowedBy. */
  function BorrowedCopies(cs: seq<BookCopy>, memberId: Guid): (r: seq<BookCopy>)
    reads cs
    ensures Records(r) == BorrowedBy(Records(cs), memberId)
  {
    if cs == [] then []
    else
      var head := if cs[0].borrowedToMemberId == Some(memberId) then [cs[0]] else [];
      var tail := BorrowedCopies(cs[1..], memberId);
      RecordsAppend(head, tail);
      assert Records(cs)[1..] == Records(cs[1..]);
      head + tail
  }

  /** The borrowed filter keeps exactly the copies the member holds, as objects. */
  lemma {:induction false} BorrowedCopiesAreExact(cs: seq<BookCopy>, memberId: Guid)
    ensures forall c | c in BorrowedCopies(cs, memberId) :: c in cs && c.borrowedToMemberId == Some(memberId)
    ensures forall i | 0 <= i < |cs| && cs[i].borrowedToMemberId == Some(memberId) ::
      cs[i] in BorrowedCopies(cs, memberId)
  {
    if cs != [] {
      BorrowedCopiesAreExact(cs[1..], memberId);
      var head := if cs[0].borrowedToMemberId == Some(memberId) then [cs[0]] else [];
      assert BorrowedCopies(cs, memberId) == head + BorrowedCopies(cs[1..], memberId);
      forall i | 1 <= i < |cs|
        ensures cs[i] == cs[1..][i - 1]
      {
      }
    }
  }

  /** Storing the value a key already maps to leaves the map as it was. */
  lemma UpdateWithStoredValue(m: map<Guid, BookCopy>, k: Guid, v: BookCopy)
    requires k in m && m[k] == v
    ensures m[k := v] == m
  {
  }

  /** Removing a key before storing it again ends as storing it straight away. */
  lemma RemoveThenAdd(m: map<Guid, BookCopy>, k: Guid, v: BookCopy)
    ensures (m - {k})[k := v] == m[k := v]
  {
  }

  /** The enumeration order after a copy with id `id` is stored: an existing id keeps its place, a new one comes last. */
  function OrderAfterSave(order: seq<Guid>, catalog: map<Guid, BookCopy>, id: Guid): (r: seq<Guid>)
    ensures |r| == |order| + (if id in catalog then 0 else 1)
    ensures r[..|order|] == order
    ensures id !in catalog ==> r[|order|] == id
  {
    if id in catalog then order else order + [id]
  }

  /**
   * Storing `copy` (remove the old entry, if any, then add) keeps the dictionary
   * well formed; it grows by one exactly when the id is new.
   */
  lemma SavePreservesWellFormed(order: seq<Guid>, catalog: map<Guid, BookCopy>, copy: BookCopy)
    requires WellFormed(order, catalog)
    ensures WellFormed(OrderAfterSave(order, catalog, copy.id), catalog[copy.id := copy])
    ensures |catalog[copy.id := copy]| == |catalog| + (if copy.id in catalog then 0 else 1)
  {
    var order' := OrderAfterSave(order, catalog, copy.id);
    if copy.id !in catalog {
      assert copy.id !in order;
      assert forall k :: k in order' <==> k in order || k == copy.id;
    }
  }

  /**
   * In the value view, storing `copy` replaces the entry with its id wholesale,
   * at the same place, or appends it when the id is new; every other entry is unchanged.
   */
  lemma SaveReplacesOrAppends(order: seq<Guid>, catalog: map<Guid, BookCopy>, copy: BookCopy)
    requires WellFormed(order, catalog)
    ensures
      var before := Records(ValuesInOrder(order, catalog));
      var after := Records(ValuesInOrder(OrderAfterSave(order, catalog, copy.id), catalog[copy.id := copy]));
      && |after| == |before| + (if copy.id in catalog then 0 else 1)
      && (forall i | 0 <= i < |before| :: after[i] == if order[i] == copy.id then copy.Record() else before[i])
      && (copy.id !in catalog ==> after[|before|] == copy.Record())
  {
    SavePreservesWellFormed(order, catalog, copy);
    var catalog' := catalog[copy.id := copy];
    var order' := OrderAfterSave(order, catalog, copy.id);
    var before := Records(ValuesInOrder(order, catalog));
    var after := Records(ValuesInOrder(order', catalog'));
    forall i | 0 <= i < |before|
      ensures after[i] == if order[i] == copy.id then copy.Record() else before[i]
    {
      assert order'[i] == order[i];
    }
    if copy.id !in catalog {
      assert order'[|before|] == copy.id;
    }
  }
}
