/** The three tables of the lending registry (books, users, loans) together
    with the AUTOINCREMENT sequence counters SQLite keeps beside them. A store
    is a value here; the class Library.Database holds one in its fields. */
module Tables {

  datatype Option<+T> = None | Some(value: T)

  /** What a registry call reports in place of the message it prints. */
  datatype Outcome =
    | Ok
    | LimitExceeded  // the borrower already holds LoanLimit loans
    | NotFound       // no row has the id, or no row matches the lookup
    | Unavailable    // every copy of the book is lent
    | Validation     // rejected before the store is touched
    | Conflict       // the UNIQUE constraint on users.email would be violated
    | Constraint     // a NOT NULL column would receive NULL

  /** How many loans one user may hold at the same time. */
  const LoanLimit := 2

  /** The youngest age a user may be saved with. */
  const MinAge := 15

  /** A row of `books`; author is NOT NULL, title and year may be NULL. */
  datatype BookRow = BookRow(
    title: Option<string>,
    author: string,
    year: Option<int>,
    totalCopies: int,
    lentCopies: int)

  /** A row of `users`; age, gender and email are NOT NULL. */
  datatype UserRow = UserRow(
    firstName: Option<string>,
    lastName: Option<string>,
    age: int,
    gender: string,
    email: string)

  /** A row of `loans`. No foreign key is enforced on bookId or userId. */
  datatype LoanRow = LoanRow(id: int, bookId: int, userId: int)

  /** The whole database: rows by id, the loans in insertion order, and the
      largest id ever issued in each table (SQLite's `sqlite_sequence`). */
  datatype Store = Store(
    books: map<int, BookRow>,
    users: map<int, UserRow>,
    loans: seq<LoanRow>,
    bookSeq: int,
    userSeq: int,
    loanSeq: int)

  /** The database right after its three tables are created. */
  const Empty := Store(map[], map[], [], 0, 0, 0)

  /** No two users share an email (the UNIQUE constraint on users.email). */
  ghost predicate UniqueEmails(users: map<int, UserRow>)
  {
    forall j, k :: j in users && k in users && users[j].email == users[k].email ==> j == k
  }

  /** No two loans share an id (the PRIMARY KEY of the loans table). */
  predicate LoanIdsDistinct(loans: seq<LoanRow>)
  {
    forall i, j :: 0 <= i < j < |loans| ==> loans[i].id != loans[j].id
  }

  /** What the schema and AUTOINCREMENT guarantee of every reachable store:
      every id lies between 1 and the largest id issued, loan ids and emails
      are unique,
      and every loan names a book id that was issued at some point (the lend
      gate checks the book exists; ids are never reused). */
  ghost predicate Valid(s: Store)
  {
    && 0 <= s.bookSeq && 0 <= s.userSeq && 0 <= s.loanSeq
    && (forall k :: k in s.books ==> 1 <= k <= s.bookSeq)
    && (forall k :: k in s.users ==> 1 <= k <= s.userSeq)
    && (forall l :: l in s.loans ==> 1 <= l.id <= s.loanSeq && 1 <= l.bookId <= s.bookSeq)
    && LoanIdsDistinct(s.loans)
    && UniqueEmails(s.users)
  }
}
