# Lending registry — a Dafny model

This project models the lending registry of `library.py`. The registry keeps
three SQLite tables: `books`, `users` and `loans`. It offers catalog operations
on books and users, which are `save`, `get` and `delete`. It also offers the
loan state machine, which is `Loan.lend_book` and `Loan.return_book`. SQLite
is replaced by a `Database` object. That object holds `map<int, BookRow>`,
`map<int, UserRow>`, a `seq<LoanRow>` in insertion order, and the AUTOINCREMENT
counter of each table, which is the largest id ever issued. The source prints
a message where it catches an error. In the model, every operation returns an
`Outcome` instead: `Ok`, `LimitExceeded`, `NotFound`, `Unavailable`,
`Validation`, `Conflict` (UNIQUE email) or `Constraint` (NOT NULL).

Modules:

- `Tables` (tables.dfy): the rows, the `Store` value and `Valid`. `Valid`
  says that ids lie in `1..seq`, that loan ids and emails are unique and that every loan
  names a book id that was issued at some time.
- `Catalog` (catalog.dfy): `SaveBook`, `DeleteBook`, `GetBook`, `SaveUser`,
  `GetUser` and `DeleteUser` as functions of the store, with lemmas about them.
- `Ledger` (ledger.dfy): `Lend` and `Return` as functions of the store, with
  the lemmas about gates, effects, round trip and invariants.
- `Invariants` (invariants.dfy): `Sound`, the conjunction of `Valid`, the
  per-user loan limit and copy accounting, across every operation; and
  `Run`, a history of calls, along which no AUTOINCREMENT id is reused.
- `Library` (library.dfy): the classes `Database`, `Book`, `User` and `Loan`.
  Their methods change the fields step by step, as the SQL statements do. Each
  postcondition ties the new state to the Catalog or Ledger function.

Behaviour of the source that the model keeps, and does not fix:

- `lend_book` never checks that the user exists. Foreign keys are declared
  but SQLite does not enforce them, since no PRAGMA turns them on.
- The same (book, user) pair can be lent twice.
- `return_book` deletes every loan of the pair but lowers `lent_copies` only
  once (`Ledger.ReturnAfterDoubleLendLeavesOneCopyLent`).
- `Book.save` does not check `lent_copies <= total_copies`
  (`Invariants.SaveBookAcceptsOverLentRow`).
- Deleting a book or a user keeps its loans. Returning a loan of a deleted
  book deletes the loan rows, and its UPDATE touches no row.
- A NULL user id passes every lend gate. The loan INSERT then violates
  NOT NULL, and the model reports `Constraint` with nothing written.
- `lend_book` and `return_book` run their statements one after another,
  without a transaction around them.
- Nothing in the code keeps `lent_copies` from going below 0 when
  `Book.save` has written a lower count; the model proves it stays at or
  above 0 only from stores that keep the copy accounting.
- `save` and `lend_book` catch their errors and print them; only `Book.get`
  and `User.get` re-raise a `ValueError`. In the model every operation
  returns its outcome.

"The first row" of an unordered `SELECT` is modelled as the row with the
lowest id. A table scan visits rows in that order.

## Model

| member | source | states |
|---|---|---|
| `Catalog.SaveBook` | library.py:40-61 | Book.save: any failure leaves store and handle id as they were; success needs a non-NULL author and leaves the handle's id naming a stored row; users, loans and their counters stay, and the book counter never goes down |
| `Catalog.DeleteBook` | library.py:90-104 | Book.delete succeeds exactly when the handle's id names a stored row, which is then gone and the handle's id cleared; every remaining book row is as it was; users, loans and all three counters are untouched |
| `Catalog.GetBook` | library.py:64-88 | a row Book.get returns is the stored row of that id and matches title or author; otherwise the error is Validation or NotFound |
| `Catalog.SaveUser` | library.py:134-159 | User.save: any failure leaves store and handle id as they were; success needs age >= 15, an email no other user has, and leaves a stored row with that email under the handle's id; books, loans and their counters stay, and the user counter never goes down |
| `Catalog.GetUser` | library.py:161-177 | a row User.get returns is the stored row of that id and has exactly the email asked for; otherwise NotFound |
| `Catalog.DeleteUser` | library.py:179-193 | User.delete succeeds exactly when the handle's id names a stored row, which is then gone and the handle's id cleared; every remaining user row is as it was; books, loans and all three counters are untouched |
| `Catalog.DeletedBookIdNotReused` | library.py:28 | after deleting book k, the next book insert gets an id above k |
| `Catalog.DeletedUserIdNotReused` | library.py:122 | after deleting user k, a successful user insert gets an id above k |
| `Ledger.Lend` | library.py:219-257 | a refused lend leaves the store unchanged; a successful one had the user under the limit, an existing book with a free copy and a non-NULL user, and appends exactly the loan (book, user) under id loanSeq+1, keeping every earlier loan, and sets the loan counter to that id; users and the book and user counters never change |
| `Ledger.Return` | library.py:259-277 | return succeeds exactly when a loan of the pair exists, and afterwards none does and there are fewer loans; otherwise NotFound with the store unchanged; users and all counters stay |
| `Invariants.Run` | library.py:28 | along any history of saves, deletes, lends and returns, no AUTOINCREMENT counter ever goes down |
| `Invariants.IdsNeverReused` | library.py:28 | after any history of calls, a book or user insert gets an id above every id present when the history began, deleted since or not |
| `Catalog.Contains` | library.py:71-76 | the `LIKE '%x%'` match holds exactly when the argument occurs as a contiguous substring at some position |
| `Catalog.FirstRow` | library.py:80-83 | `fetchone` yields a matching row in the scanned id range with no matching row before it; no row means no row in the range matches |
| `Catalog.GetBookFindsFirstMatch` | library.py:64-85 | Book.get fails with Validation exactly when neither title nor author is non-empty; a found row matches title OR author and no lower id matches; NotFound exactly when no row matches |
| `Catalog.GetUserMatchesEmail` | library.py:162-174 | User.get returns the one row whose email equals the argument; NotFound exactly when no row has it (a NULL email matches nothing) |
| `Catalog.SaveBookInsertsUnderFreshId` | library.py:44-50 | Book.save without an id inserts the row under id seq+1, above every stored id, and sets the book counter to it; only a NULL author refuses it, leaving the store unchanged; the other tables and counters stay |
| `Catalog.SaveBookOverwritesById` | library.py:51-59 | Book.save with an id replaces that whole row; an absent id reports NotFound and changes nothing; a NULL author on an existing row is refused |
| `Catalog.DeleteBookRemovesRow` | library.py:90-102 | Book.delete removes exactly the handle's row and clears the id; loans, users and all three AUTOINCREMENT counters stay; otherwise NotFound with nothing changed |
| `Catalog.DeleteUserRemovesRow` | library.py:179-191 | User.delete removes exactly the handle's row and clears the id; loans, books and all three AUTOINCREMENT counters stay; otherwise NotFound with nothing changed |
| `Catalog.SaveUserDecidesOutcome` | library.py:134-159 | each outcome of User.save holds exactly when its gate is the first to fail: Validation when age < 15 (insert and update alike), then NotFound for an absent id, then Constraint for a NULL gender or email, then Conflict when another user has the email; Ok exactly when all gates pass; every failure leaves store and handle unchanged |
| `Catalog.SaveUserWritesRow` | library.py:140-155 | a successful User.save writes the row under the handle's existing id (counter unchanged), or under id seq+1, above every stored id, which becomes the counter; books, loans and their counters stay |
| `Catalog.SaveBookKeepsValid` | library.py:40-59 | Book.save keeps ids within the issued range and loans naming issued books |
| `Catalog.DeleteBookKeepsValid` | library.py:90-102 | Book.delete keeps the store valid |
| `Catalog.DeleteUserKeepsValid` | library.py:179-191 | User.delete keeps the store valid |
| `Catalog.SaveUserKeepsValid` | library.py:134-155 | User.save keeps emails unique, as UNIQUE(email) does |
| `Catalog.SavedBookIsFoundByTitle` | library.py:40-83 | after a book with a title is inserted, Book.get with that title finds a row |
| `Catalog.SavedUserIsFoundByEmail` | library.py:134-172 | after a successful User.save, User.get with its email returns exactly the saved row under the handle's id |
| `Ledger.CountFor` | library.py:224-228 | the per-user loan count is at most the number of loans; it is zero exactly when the user has no loan; a NULL user has none |
| `Ledger.Without` | library.py:264-267 | the DELETE keeps exactly the loans not of the pair; the count drops exactly when some loan of the pair existed, and otherwise nothing changes |
| `Ledger.LendChecksGatesInOrder` | library.py:224-241 | the outcome is decided by the first failing gate in the order loan limit, book exists, free copy (then NOT NULL user); every non-Ok outcome leaves the store unchanged |
| `Ledger.LendRecordsOneLoan` | library.py:239-252 | a successful lend appends exactly one loan of the pair under a fresh id and raises that book's lent count by one, which stays within its total; other books, users and earlier loans are unchanged |
| `Ledger.ReturnRemovesEveryMatch` | library.py:264-275 | with a loan of the pair, return deletes all of them and lowers the book's count exactly once (or not at all if the book row is gone); without one it reports NotFound and changes nothing |
| `Ledger.LendThenReturn` | library.py:244-272 | lending a pair with no loan, then returning it, restores books, users and loans; only the loan id counter moves |
| `Ledger.ReturnUndoesLastLoan` | library.py:264-272 | when the last recorded loan is the pair's only one, return drops exactly it and lowers the book's count by one |
| `Ledger.ReturnAfterDoubleLendLeavesOneCopyLent` | library.py:264-272 | lending the same pair twice, then returning it, removes both loans but leaves the lent count one above where it started |
| `Ledger.ThirdLoanRefused` | library.py:224-230 | a user who went from no loans to two successful lends is refused any third with LimitExceeded and the store unchanged |
| `Ledger.LastCopyIsLentOnce` | library.py:239-252 | with one copy left, the first lend takes it and a second lend of that book is refused without effect |
| `Ledger.LendKeepsLoanLimit` | library.py:224-247 | if no user holds more than 2 loans, none does after a lend |
| `Ledger.ReturnKeepsLoanLimit` | library.py:264-267 | if no user holds more than 2 loans, none does after a return |
| `Ledger.LendKeepsCopiesAccounted` | library.py:239-252 | lend keeps each book's lent count between its number of distinct borrowers and its total |
| `Ledger.ReturnKeepsCopiesAccounted` | library.py:264-272 | return keeps each book's lent count between its number of distinct borrowers and its total, so it never goes below zero |
| `Ledger.LendKeepsValid` | library.py:232-247 | a lend keeps the store valid: the loan it inserts names an existing book, and its id is new, so loan ids stay distinct |
| `Ledger.ReturnKeepsValid` | library.py:264-272 | a return keeps the store valid, loan ids distinct included |
| `Invariants.EmptyIsSound` | library.py:22-217 | the three freshly created tables (books, users, loans) satisfy all invariants |
| `Invariants.LendKeepsSound` | library.py:219-257 | lend_book keeps all invariants |
| `Invariants.ReturnKeepsSound` | library.py:259-277 | return_book keeps all invariants |
| `Invariants.SaveUserKeepsSound` | library.py:134-159 | User.save keeps all invariants |
| `Invariants.DeleteUserKeepsSound` | library.py:179-193 | User.delete keeps all invariants |
| `Invariants.DeleteBookKeepsSound` | library.py:90-104 | Book.delete keeps all invariants |
| `Invariants.FreshBookHasNoHolders` | library.py:232-245 | no loan names the id the next book insert will receive |
| `Invariants.SaveBookKeepsSound` | library.py:40-61 | Book.save keeps all invariants when the row written has its lent count between the book's borrowers and its total |
| `Invariants.SaveBookAcceptsOverLentRow` | library.py:40-59 | Book.save stores a row with more copies lent than owned, breaking copy accounting |
| `Library.Database.constructor` | library.py:22-217 | a new database has empty tables, counters at 0, and satisfies the schema invariant |
| `Library.Book.constructor` | library.py:12-19 | a new Book handle has no id unless one is given, total_copies 1 and lent_copies 0 by default |
| `Library.User.constructor` | library.py:106-113 | a new User handle carries the given attributes and id |
| `Library.Book.Save` | library.py:40-61 | the handle's id and the database's new state are those of `Catalog.SaveBook`; the schema invariant is kept |
| `Library.Book.Get` | library.py:64-88 | Validation exactly when neither argument is given; a returned row is the stored row of that id, matches title or author, and no lower id matches; NotFound exactly when no stored row matches |
| `Library.Book.Delete` | library.py:90-104 | the handle's id and the database's new state are those of `Catalog.DeleteBook`; the schema invariant is kept |
| `Library.User.Save` | library.py:134-159 | the age gate, then the insert or update; the new state is that of `Catalog.SaveUser`; the schema invariant (unique emails included) is kept |
| `Library.User.Get` | library.py:161-177 | a returned row is the stored row of that id with exactly that email, and the only one with it; NotFound exactly when no stored user has the email |
| `Library.User.Delete` | library.py:179-193 | the handle's id and the database's new state are those of `Catalog.DeleteUser`; the schema invariant is kept |
| `Library.Loan.LendBook` | library.py:219-257 | count, look up, compare, insert, increment; outcome and new state are those of `Ledger.Lend`; the schema invariant is kept |
| `Library.Loan.ReturnBook` | library.py:259-277 | delete the pair's loans, then decrement if any were deleted; outcome and new state are those of `Ledger.Return`; the schema invariant is kept |
| `Library.UnderageScenario` | test_library.py:56-59 | saving a 14-year-old user reports Validation and writes nothing |
| `Library.DuplicateEmailScenario` | library.py:141-145 | a second user with a stored email is refused with Conflict and the first row is untouched |

## Left out

- Connection handling, `connection_context`, `execute_sql` and the `create_table` DDL are I/O. The `Database` constructor stands for the freshly created tables, and the schema's constraints are built into the operations: AUTOINCREMENT, UNIQUE email and NOT NULL.
- Print-based logging, and the `__main__` demo script.
- Concurrency and transaction isolation. Each call is one atomic sequential step.
- `LIKE` folds ASCII case, and `%` and `_` inside a search argument act as wildcards. `Catalog.Contains` is a plain, case-sensitive substring test.
- CharField maximum lengths. SQLite TEXT columns do not enforce them.
- Integer widths. SQLite ids and counts are 64-bit, so AUTOINCREMENT exhaustion (SQLITE_FULL) and overflow of `lent_copies + 1` are not modelled. Integers here are unbounded.
- Setting `total_copies` or `lent_copies` to None is not modelled: both are plain integers. Setting `age` to None is not modelled either. In the source, `None < 15` raises a TypeError that `User.save` does not catch.
- Python's dynamic typing: ids are integers or None, never values of other types.
- `Book.get` and `User.get` build a new handle object. The model returns a `Lookup` value, the id plus the row, and a `Missing` result stands for the ValueError they re-raise.
- The `Loan` model's instance fields (`id`, `book_id`, `user_id` on the peewee object) are never used by the source and have no counterpart.
- The "first row" returned by an unordered `SELECT` depends on the engine. It is modelled as the lowest id.

