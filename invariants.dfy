/** The registry's two business invariants — no user over the loan limit,
    no book lent beyond its copies — across all operations of library.py. */
module Invariants {
  import opened Tables
  import opened Catalog
  import opened Ledger

  /** What holds of every store the registry's operations can reach, as long
      as Book.save is only given rows whose lent count is within bounds. */
  ghost predicate Sound(s: Store)
  {
    Valid(s) && WithinLoanLimit(s) && CopiesAccounted(s)
  }

  /** One call of the registry's API. */
  datatype Op =
    | SaveBookOp(bookId: Option<int>, book: BookFields)
    | DeleteBookOp(bookId: Option<int>)
    | SaveUserOp(userId: Option<int>, user: UserFields)
    | DeleteUserOp(userId: Option<int>)
    | LendOp(lentBook: Option<int>, borrower: Option<int>)
    | ReturnOp(returnedBook: Option<int>, returner: Option<int>)

  /** The store after one call. */
  function Apply(s: Store, op: Op): Store
  {
    match op
    case SaveBookOp(id, f) => SaveBook(s, id, f).store
    case DeleteBookOp(id) => DeleteBook(s, id).store
    case SaveUserOp(id, f) => SaveUser(s, id, f).store
    case DeleteUserOp(id) => DeleteUser(s, id).store
    case LendOp(b, u) => Lend(s, b, u).store
    case ReturnOp(b, u) => Return(s, b, u).store
  }

  /** The store after a history of calls, in order. AUTOINCREMENT counters
      never move back along it. */
  function Run(s: Store, ops: seq<Op>): (t: Store)
    ensures t.bookSeq >= s.bookSeq && t.userSeq >= s.userSeq && t.loanSeq >= s.loanSeq
    decreases |ops|
  {
    if ops == [] then s else Run(Apply(s, ops[0]), ops[1..])
  }

  /** AUTOINCREMENT never reuses an id: after any history of calls, a book
      or user insert gets an id above every id present at its start, even
      if that row has since been deleted. */
  lemma IdsNeverReused(s: Store, ops: seq<Op>, bf: BookFields, uf: UserFields)
    requires Valid(s)
    ensures var t := Run(s, ops);
      && (SaveBook(t, None, bf).outcome == Ok ==> forall k :: k in s.books ==> k < SaveBook(t, None, bf).id.value)
      && (SaveUser(t, None, uf).outcome == Ok ==> forall k :: k in s.users ==> k < SaveUser(t, None, uf).id.value)
  {
  }

  lemma EmptyIsSound()
    ensures Sound(Empty)
  {
  }

  lemma LendKeepsSound(s: Store, bookId: Option<int>, userId: Option<int>)
    requires Sound(s)
    ensures Sound(Lend(s, bookId, userId).store)
  {
    LendKeepsValid(s, bookId, userId);
    LendKeepsLoanLimit(s, bookId, userId);
    LendKeepsCopiesAccounted(s, bookId, userId);
  }

  lemma ReturnKeepsSound(s: Store, bookId: Option<int>, userId: Option<int>)
    requires Sound(s)
    ensures Sound(Return(s, bookId, userId).store)
  {
    ReturnKeepsValid(s, bookId, userId);
    ReturnKeepsLoanLimit(s, bookId, userId);
    ReturnKeepsCopiesAccounted(s, bookId, userId);
  }

  lemma SaveUserKeepsSound(s: Store, id: Option<int>, f: UserFields)
    requires Sound(s)
    ensures Sound(SaveUser(s, id, f).store)
  {
    SaveUserKeepsValid(s, id, f);
    SaveUserWritesRow(s, id, f);
    SaveUserDecidesOutcome(s, id, f);
  }

  lemma DeleteUserKeepsSound(s: Store, id: Option<int>)
    requires Sound(s)
    ensures Sound(DeleteUser(s, id).store)
  {
  }

  lemma DeleteBookKeepsSound(s: Store, id: Option<int>)
    requires Sound(s)
    ensures Sound(DeleteBook(s, id).store)
  {
  }

  /** A book inserted under a fresh id has no loans yet, since every loan
      names an id issued before. */
  lemma FreshBookHasNoHolders(s: Store)
    requires Valid(s)
    ensures Holders(s.loans, s.bookSeq + 1) == {}
  {
  }

  /** Book.save keeps the invariants when the row it writes has its lent
      count between the book's current holders and its total. */
  lemma SaveBookKeepsSound(s: Store, id: Option<int>, f: BookFields)
    requires Sound(s)
    requires f.lentCopies <= f.totalCopies
    requires id.None? ==> 0 <= f.lentCopies
    requires id.Some? ==> |Holders(s.loans, id.value)| <= f.lentCopies
    ensures Sound(SaveBook(s, id, f).store)
  {
    SaveBookKeepsValid(s, id, f);
    if id.None? {
      FreshBookHasNoHolders(s);
    }
  }

  /** Book.save does not compare lent and total copies: a row with more
      copies lent than owned is stored as given and breaks the invariant. */
  lemma SaveBookAcceptsOverLentRow(s: Store, f: BookFields)
    requires Valid(s)
    requires f.author.Some? && f.lentCopies > f.totalCopies
    ensures SaveBook(s, None, f).outcome == Ok
    ensures !CopiesAccounted(SaveBook(s, None, f).store)
  {
    var t := SaveBook(s, None, f).store;
    assert t.books[s.bookSeq + 1].lentCopies > t.books[s.bookSeq + 1].totalCopies;
  }
}
