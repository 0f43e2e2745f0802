# Borrowing core of the library lending back end

This project models the core of the library's borrowing transaction:

- **The `BookCopy` entity.** A copy's holder (`BorrowedToMemberId`) is absent while the copy is available. Only `LoanTo` sets it, and nothing clears it.
- **The three dictionary-backed copy repositories** that the test project defines. Each has three operations:
  - an upsert that removes the old entry and then adds the new one;
  - "available copies of a book" (same ISBN, no holder);
  - "copies borrowed by a member" (holder equals the member).
- **The two variants of `BorrowBook`.**
  - The newer service fetches the available copies first and then runs the checks.
  - The older one checks registration before it fetches anything.
  - In both, each failed check raises its own error, in a fixed order: not registered, then no copies available, then the borrow limit reached.
  - On success, the first available copy is loaned to the member and saved once, and its id is returned.

`BookCopy` is a class, so its holder changes in place. Each repository is a class whose dictionary is a field `catalog: map<Guid, BookCopy>` holding references. The dictionary's enumeration order is a second field `order: seq<Guid>`:

- re-adding a key that was just removed keeps its place;
- a new key is enumerated last.

Because the dictionary holds references, `LoanTo` on a copy returned by a query changes the stored entry already. The upsert that follows stores the same object again.

The value view of a repository is `Entries()`, the records (id, ISBN, holder) of the stored copies in enumeration order. `Lending.Borrow` is the reference definition of one borrow over that view: the outcome, and the records afterwards. Both service variants are proved to end exactly as `Borrow` says, on every input. Their contracts also state:

- what is saved: one id on success, nothing on failure;
- that the dictionary itself is unchanged;
- that the stored copy with the returned id has the book's ISBN and the member as its holder.

The properties proved about `Borrow` are:

- error precedence;
- what a successful borrow moves from the available list to the borrowed list;
- the per-member limit as an invariant;
- the scenarios from the tests (first borrow of a member; the last copy can be borrowed only once).

External inputs are parameters:

- **Member service:** the set of registered members (`registeredMembers`).
- **Borrow limit:** `Constants.MaxBorrowedBooks` becomes the constructor parameter `maxBorrowedBooks`.
- **Identifiers:** opaque values of type `Guid`.

There is no I/O, clock or randomness in the core.

### Specification and code

The service's design asks that a copy changed in memory but not yet saved never be observable to other callers. With the in-memory repositories, the stored record already changes at `LoanTo`, because the dictionary holds the same object, so the save that follows adds nothing. Those repositories finish `SaveBookCopy` at once, so within one sequential call nobody can observe the state between the two steps. Only a concurrent reader could see the copy loaned before `SaveBookCopy` runs, and concurrency is not modelled. `CopyLending.LendCopy` shows that the records change at `LoanTo`, and that the upsert afterwards stores the same reference again.

The design calls the second error `NoAvailableCopies`. The code calls it `NoAvailableBookCopiesException`, and the model names it `NoAvailableBookCopies`.

## Model

| member | source | states |
|---|---|---|
| Entities.BookCopy.constructor | BusinessLogic/Entities/BookCopy.cs:8-14 | a new copy has the given id and ISBN and no holder, so it is available |
| Entities.BookCopy.LoanTo | BusinessLogic/Entities/BookCopy.cs:16-19 | the holder becomes the member; id and ISBN are unchanged (its record is the old record loaned to the member) |
| Entities.CopyRecord.LoanedTo | BusinessLogic/Entities/BookCopy.cs:16-19 | id and ISBN are kept, the holder is the member, and the copy is no longer available |
| Entities.LoanToIsIdempotent | BusinessLogic/Entities/BookCopy.cs:18 | loaning twice to the same member gives the same state as loaning once |
| Entities.LastLoanWins | BusinessLogic/Entities/BookCopy.cs:18 | after two loans, the holder is the member of the second one |
| Catalog.ValuesInOrder | BusinessLogic.Tests/BookCopyInMemoryRepository.cs:16 | `catalog.Values` in enumeration order: one copy per enumerated key, and the i-th value is the copy stored under the i-th key |
| Catalog.ValuesInOrderAreTheValues | BusinessLogic.Tests/BookCopyInMemoryRepository.cs:16 | the enumeration of the dictionary visits exactly its stored copies |
| Catalog.WellFormedRecordsHaveUniqueIds | BusinessLogic.Tests/BookCopyInMemoryRepository.cs:29 | in a dictionary keyed by copy id, the i-th enumerated entry has the i-th key as id, and no two entries share an id |
| Catalog.AvailableOf | BusinessLogic.Tests/BookCopyInMemoryRepository.cs:35 | a record is in the available list exactly when it is stored, has the ISBN and has no holder; the list is no longer than the catalog |
| Catalog.BorrowedBy | BusinessLogic.Tests/BookCopyInMemoryRepository.cs:16 | a record is in the borrowed list exactly when it is stored and held by the member |
| Catalog.AvailableAndBorrowedAreDisjoint | BusinessLogic.Tests/BookCopyInMemoryRepository.cs:14-38 | no copy is both in some book's available list and in some member's borrowed list |
| Catalog.AvailableCopies | BusinessLogic.Tests/BookCopyInMemoryRepository.cs:33-38 | the available filter over copies, read as records, is the available list of their records, in the same order |
| Catalog.AvailableCopiesAreExact | BusinessLogic.Tests/BookCopyInMemoryRepository.cs:33-38 | the available filter returns only copies of the list with the ISBN and no holder, and every such copy |
| Catalog.BorrowedCopies | BusinessLogic.Tests/BookCopyInMemoryRepository.cs:14-18 | the borrowed filter over copies, read as records, is the borrowed list of their records, in the same order |
| Catalog.BorrowedCopiesAreExact | BusinessLogic.Tests/BookCopyInMemoryRepository.cs:14-18 | the borrowed filter returns only copies held by the member, and every such copy |
| Catalog.OrderAfterSave | BusinessLogic.Tests/BookCopyInMemoryRepository.cs:22-29 | the enumeration order after Remove then Add: every earlier key keeps its place; a new id adds one slot, enumerated last; an existing id adds none |
| Catalog.SavePreservesWellFormed | BusinessLogic.Tests/BookCopyInMemoryRepository.cs:20-31 | remove-then-add keeps every key unique, enumerated once and equal to its copy's id; the dictionary grows by one exactly when the id is new |
| Catalog.SaveReplacesOrAppends | BusinessLogic.Tests/BookCopyInMemoryRepository.cs:20-31 | after the upsert, the entry with the copy's id is replaced wholesale in place, or the copy is appended when its id is new; every other entry is unchanged |
| Lending.Rejection | BusinessLogic/Services/BorrowBook/BorrowBookService.cs:43-58 | no check fails exactly when the member is registered, some copy is available and the member holds fewer copies than the limit |
| Lending.Lend | BusinessLogic/Services/BorrowBook/BorrowBookService.cs:31-33 | what `LoanTo` then `SaveBookCopy` do to the records: one record per stored copy, in the same order; its content is stated by LendIsPointwise and LendAt |
| Lending.Borrow | BusinessLogic/Services/BorrowBook/BorrowBookService.cs:23-36 | one borrow over the records: the first failed check's error with the records unchanged; otherwise the first available copy's id, with that copy lent to the member (the same steps as BusinessLogic/Services/BorrowBookService.cs:22-52) |
| Lending.LendIsPointwise | BusinessLogic/Services/BorrowBook/BorrowBookService.cs:31-33 | for any records, unique ids or not, lending turns every record with the given id into its loaned form and leaves every other record unchanged |
| Lending.LendAt | BusinessLogic/Services/BorrowBook/BorrowBookService.cs:31-33 | with unique ids, lending the copy with a given id changes exactly that one record, to the record loaned to the member |
| Lending.BorrowErrorPrecedence | BusinessLogic/Services/BorrowBook/BorrowBookService.cs:45-57 | not registered wins over everything; no copies wins over the limit; the limit applies only to a registered member with copies available; success exactly when all three pass; a failed borrow leaves the records unchanged |
| Lending.SuccessfulBorrowMovesOneCopy | BusinessLogic/Services/BorrowBook/BorrowBookService.cs:25-35 | on success the returned id is the first available copy's. That copy leaves the book's available list (one fewer) and joins the member's borrowed list (one more). No other book's availability and no other member's holdings change, and ids stay unique |
| Lending.BorrowKeepsTheLimit | BusinessLogic/Services/BorrowBook/BorrowBookService.cs:53-57 | if every member holds at most the limit before a borrow, every member does after it |
| Lending.FirstBorrowOfAMember | BusinessLogic.Tests/BorrowBookTest.cs:29-52 | a registered member with no loans borrowing one of k available copies then holds exactly the returned copy, and k - 1 copies stay available |
| Lending.LastCopyCanBeBorrowedOnce | BusinessLogic/Services/BorrowBook/BorrowBookService.cs:50-51 | with one available copy, the first borrow succeeds and a second one fails with no copies available and changes nothing |
| InMemoryRepository.BookCopyInMemoryRepository.constructor | BusinessLogic.Tests/BookCopyInMemoryRepository.cs:12 | the repository starts with an empty dictionary and nothing saved |
| InMemoryRepository.BookCopyInMemoryRepository.EntriesAreTheStoredRecords | BusinessLogic.Tests/BookCopyInMemoryRepository.cs:12 | entry i is the current record of the copy stored under the i-th key, and ids are unique |
| InMemoryRepository.BookCopyInMemoryRepository.GetBorrowedBookCopiesByMember | BusinessLogic.Tests/BookCopyInMemoryRepository.cs:14-18 | the result, read as records, is the member's borrowed list of the stored entries; a function, so it changes nothing |
| InMemoryRepository.BookCopyInMemoryRepository.BorrowedCopiesAreTheStoredOnes | BusinessLogic.Tests/BookCopyInMemoryRepository.cs:14-18 | the borrowed query returns only stored copies held by the member, and every one of them |
| InMemoryRepository.BookCopyInMemoryRepository.SaveBookCopy | BusinessLogic.Tests/BookCopyInMemoryRepository.cs:20-31 | the dictionary maps the copy's id to the copy and is otherwise unchanged; it stays well formed; its size grows by one exactly when the id is new; an existing id keeps its place in the enumeration; the call is logged once |
| InMemoryRepository.BookCopyInMemoryRepository.GetAvailableCopiesByBookId | BusinessLogic.Tests/BookCopyInMemoryRepository.cs:33-38 | the result, read as records, is the book's available list of the stored entries; a function, so it changes nothing |
| InMemoryRepository.BookCopyInMemoryRepository.AvailableCopiesAreTheStoredOnes | BusinessLogic.Tests/BookCopyInMemoryRepository.cs:33-38 | the available query returns only stored, unheld copies of the book, and every one of them |
| FakeRepository.FakeBookCopyRepository.constructor | BusinessLogic.Tests/FakeBookCopyRepository.cs:12 | the repository starts with an empty dictionary |
| FakeRepository.FakeBookCopyRepository.EntriesAreTheStoredRecords | BusinessLogic.Tests/FakeBookCopyRepository.cs:26 | entry i is the current record of the copy stored under the i-th key, and ids are unique |
| FakeRepository.FakeBookCopyRepository.GetBorrowedBookCopiesByMember | BusinessLogic.Tests/FakeBookCopyRepository.cs:14-18 | the result, read as records, is the member's borrowed list of the stored entries |
| FakeRepository.FakeBookCopyRepository.BorrowedCopiesAreTheStoredOnes | BusinessLogic.Tests/FakeBookCopyRepository.cs:14-18 | the borrowed query returns only stored copies held by the member, and every one of them |
| FakeRepository.FakeBookCopyRepository.UpdateBookCopy | BusinessLogic.Tests/FakeBookCopyRepository.cs:20-28 | the dictionary maps the copy's id to the copy, with every other key untouched; it stays well formed (every key is its copy's id); its size grows by one exactly when the id is new |
| FakeRepository.FakeBookCopyRepository.Save | BusinessLogic.Tests/FakeBookCopyRepository.cs:30-33 | the stored entries are unchanged |
| FakeRepository.FakeBookCopyRepository.GetAvailableCopiesByBookId | BusinessLogic.Tests/FakeBookCopyRepository.cs:35-40 | the result, read as records, is the book's available list of the stored entries |
| FakeRepository.FakeBookCopyRepository.AvailableCopiesAreTheStoredOnes | BusinessLogic.Tests/FakeBookCopyRepository.cs:35-40 | the available query returns only stored, unheld copies of the book, and every one of them |
| MemoryDb.BookCopyMemoryDb.constructor | BusinessLogic.Tests/BookCopyMemoryDb.cs:10 | the database starts with an empty dictionary |
| MemoryDb.BookCopyMemoryDb.EntriesAreTheStoredRecords | BusinessLogic.Tests/BookCopyMemoryDb.cs:23 | entry i is the current record of the copy stored under the i-th key, and ids are unique |
| MemoryDb.BookCopyMemoryDb.GetBorrowedBookCopiesByMember | BusinessLogic.Tests/BookCopyMemoryDb.cs:12-15 | the result, read as records, is the member's borrowed list of the stored entries |
| MemoryDb.BookCopyMemoryDb.BorrowedCopiesAreTheStoredOnes | BusinessLogic.Tests/BookCopyMemoryDb.cs:12-15 | the borrowed query returns only stored copies held by the member, and every one of them |
| MemoryDb.BookCopyMemoryDb.SaveBookCopy | BusinessLogic.Tests/BookCopyMemoryDb.cs:17-24 | the dictionary maps the copy's id to the copy and is otherwise unchanged; it stays well formed; saving an existing id keeps the size, a new id adds one |
| MemoryDb.BookCopyMemoryDb.GetAvailableCopiesByBookId | BusinessLogic.Tests/BookCopyMemoryDb.cs:26-30 | the result, read as records, is the book's available list of the stored entries |
| MemoryDb.BookCopyMemoryDb.AvailableCopiesAreTheStoredOnes | BusinessLogic.Tests/BookCopyMemoryDb.cs:26-30 | the available query returns only stored, unheld copies of the book, and every one of them |
| CopyLending.ChosenCopyIsStored | BusinessLogic/Services/BorrowBook/BorrowBookService.cs:29 | the copy taken from the available list is stored under its own id, is the first available copy of the book, and has the requested ISBN |
| CopyLending.LendCopy | BusinessLogic/Services/BorrowBook/BorrowBookService.cs:31-33 | `LoanTo` then `SaveBookCopy` on a stored copy: the dictionary keeps the same references, the copy's holder is the member, the entries are the old ones with that copy lent, and exactly one save is logged |
| BorrowBook.BorrowBookService.constructor | BusinessLogic/Services/BorrowBook/BorrowBookService.cs:17-21 | the service keeps the member service, the repository and the limit it is given |
| BorrowBook.BorrowBookService.BorrowBook | BusinessLogic/Services/BorrowBook/BorrowBookService.cs:23-36 | the outcome and the new entries are those of Borrow on the old entries. One save of the returned id on success, none on failure. The dictionary is unchanged, and the copy with the returned id has the book's ISBN and the member as holder |
| BorrowBook.BorrowBookService.CheckIfMemberCanBorrowBook | BusinessLogic/Services/BorrowBook/BorrowBookService.cs:43-58 | the error raised is the first failed check of Rejection (registered, then copies available, then the member's current count against the limit), or none |
| BorrowBook.BorrowBookService.GetBorrowedBookCopiesByMember | BusinessLogic/Services/BorrowBook/BorrowBookService.cs:38-41 | delegates to the repository: the result, read as records, is the member's borrowed list; a function, so it has no side effects |
| BorrowBook.BorrowBookService.SelectCopyToBorrow | BusinessLogic/Services/BorrowBook/BorrowBookService.cs:60-64 | the copy chosen is one of the available copies; the body takes `availableCopies[0]`, and BorrowBook's contract, through Borrow, states that it is the first |
| Services.BorrowBookService.constructor | BusinessLogic/Services/BorrowBookService.cs:15-19 | the service keeps the member service, the repository and the limit it is given |
| Services.BorrowBookService.BorrowBook | BusinessLogic/Services/BorrowBookService.cs:22-52 | the same contract as the newer service's BorrowBook: the outcome and new entries are those of Borrow, one save on success, none on any failure, and the lent copy has the book's ISBN and the member as holder |
| Services.BorrowBookService.SelectCopyToBorrow | BusinessLogic/Services/BorrowBookService.cs:54-58 | the copy chosen is one of the available copies; the body takes `availableCopies[0]`, and BorrowBook's contract, through Borrow, states that it is the first |
| Services.BorrowBookService.GetBorrowedBookCopiesByMember | BusinessLogic/Services/BorrowBookService.cs:60-63 | delegates to the repository: the result, read as records, is the member's borrowed list |

## Left out

- Asynchrony: `async`/`Task` are modelled as plain sequential calls.
- The Entity Framework repository and its context are not part of this model. They delegate to a library whose behaviour is not visible here.
- Exception messages: the three exceptions are the tags of `BorrowError`, and their message texts are not modelled.
- Test scaffolding (mocks, generated data, random `Guid`s and the test classes) is not modelled. The tests serve only as the source of the scenario lemmas.
- Concurrency: two borrowers racing for the last copy are not modelled, since the code has no locking.
- `Id` and `BookIsbn` are `const` fields set by the constructor. The code gives them public setters, but the core never uses those setters after creation.
- The private setter of `BorrowedToMemberId` is modelled as only `LoanTo` assigning the field. No other member of the model writes it.
- Services.BorrowBookService.BorrowBook: the claim that the registration check comes before any copy query is not stated. The queries are side-effect-free functions, so their order leaves no trace in the state. The body follows the source's order, and both variants have the same contract.
- The fake repository's `UpdateBookCopy` plus `Save` pair stands for the interface's `SaveBookCopy`. The fake has no `SaveBookCopy` of its own.
- The services are wired to `BookCopyInMemoryRepository` only. The model has no interface type, so the fake and the memory database are modelled on their own and not plugged into a service.
- The log of saved ids (`saved`) exists only on `BookCopyInMemoryRepository`, the repository the services use.
- Dictionary enumeration order follows the behaviour of .NET's `Dictionary`: a key removed and re-added at once keeps its slot, and a new key comes last. .NET does not promise this order. It only decides which copy counts as "first"; the exactness lemmas of the queries hold for any order.
- `LoanTo` followed by `SaveBookCopy` is written once, as `CopyLending.LendCopy`, and both services call it. The source repeats the two calls in each service.
- The member service is the set `registeredMembers`.
- `Constants.MaxBorrowedBooks` is the constructor parameter `maxBorrowedBooks` (any `nat`), because its definition is not part of this model.
- The optional logging hook for the limit error, mentioned in the design, does not appear in either service modelled here, so it is not modelled.
