/** The loan state machine of library.py (`Loan.lend_book`,
    `Loan.return_book`) as functions of the store, and what they keep. */
module Ledger {
  import opened Tables

  /** The outcome a ledger call reports and the store it leaves. */
  datatype Step = Step(outcome: Outcome, store: Store)

  /** Whether a loan row is one `DELETE ... WHERE book_id = b AND user_id = u` removes. */
  predicate Matches(l: LoanRow, b: int, u: int)
  {
    l.bookId == b && l.userId == u
  }

  /** `SELECT COUNT(*) FROM loans WHERE user_id = ?`; a NULL user matches no row. */
  function CountFor(loans: seq<LoanRow>, userId: Option<int>): (n: nat)
    ensures n <= |loans|
    ensures userId.None? ==> n == 0
    ensures n == 0 <==> forall l :: l in loans ==> Some(l.userId) != userId
  {
    if loans == [] then 0
    else (if Some(loans[0].userId) == userId then 1 else 0) + CountFor(loans[1..], userId)
  }

  /** The loans `DELETE FROM loans WHERE book_id = b AND user_id = u` keeps,
      in their order. */
  function Without(loans: seq<LoanRow>, b: int, u: int): (kept: seq<LoanRow>)
    ensures |kept| <= |loans|
    ensures forall l :: l in kept <==> l in loans && !Matches(l, b, u)
    ensures |kept| == |loans| <==> forall l :: l in loans ==> !Matches(l, b, u)
    ensures |kept| == |loans| ==> kept == loans
  {
    if loans == [] then []
    else if Matches(loans[0], b, u) then Without(loans[1..], b, u)
    else [loans[0]] + Without(loans[1..], b, u)
  }

  /** Whether some loan of book b to user u is recorded. */
  predicate HasLoan(loans: seq<LoanRow>, b: int, u: int)
  {
    exists l :: l in loans && Matches(l, b, u)
  }

  /** Loan.lend_book: three gates in order — the borrower's loan count, the
      book's existence, a free copy — then the loan row is inserted and the
      book's lent count raised. The user is never looked up; a NULL user id
      passes the gates and then violates NOT NULL on the INSERT. */
  function Lend(s: Store, bookId: Option<int>, userId: Option<int>): (r: Step)
    ensures r.outcome != Ok ==> r.store == s
    ensures r.outcome == Ok ==>
      && CountFor(s.loans, userId) < LoanLimit && userId.Some?
      && bookId.Some? && bookId.value in s.books
      && s.books[bookId.value].lentCopies < s.books[bookId.value].totalCopies
      && r.store.loans == s.loans + [LoanRow(s.loanSeq + 1, bookId.value, userId.value)]
      && r.store.loanSeq == s.loanSeq + 1
    ensures r.store.users == s.users && r.store.bookSeq == s.bookSeq && r.store.userSeq == s.userSeq
  {
    if CountFor(s.loans, userId) >= LoanLimit then Step(LimitExceeded, s)
    else if bookId.None? || bookId.value !in s.books then Step(NotFound, s)
    else
      var book := s.books[bookId.value];
      if book.lentCopies >= book.totalCopies then Step(Unavailable, s)
      else if userId.None? then Step(Constraint, s)
      else
        var loan := LoanRow(s.loanSeq + 1, bookId.value, userId.value);
        Step(Ok, s.(loans := s.loans + [loan], loanSeq := loan.id,
                    books := s.books[bookId.value := book.(lentCopies := book.lentCopies + 1)]))
  }

  /** Loan.return_book: delete every loan of the pair; if any was deleted,
      lower the book's lent count once (an UPDATE that touches nothing when
      the book row is gone). */
  function Return(s: Store, bookId: Option<int>, userId: Option<int>): (r: Step)
    ensures r.outcome != Ok ==> r.outcome == NotFound && r.store == s
    ensures r.outcome == Ok <==> bookId.Some? && userId.Some? && HasLoan(s.loans, bookId.value, userId.value)
    ensures r.outcome == Ok ==> |r.store.loans| < |s.loans| && !HasLoan(r.store.loans, bookId.value, userId.value)
    ensures r.store.users == s.users && r.store.bookSeq == s.bookSeq
    ensures r.store.userSeq == s.userSeq && r.store.loanSeq == s.loanSeq
  {
    if bookId.None? || userId.None? then Step(NotFound, s)
    else
      var b, u := bookId.value, userId.value;
      var kept := Without(s.loans, b, u);
      if |kept| == |s.loans| then Step(NotFound, s)
      else
        var books :=
          if b in s.books then s.books[b := s.books[b].(lentCopies := s.books[b].lentCopies - 1)]
          else s.books;
        Step(Ok, s.(loans := kept, books := books))
  }

  // ---------------------------------------------------------------- counting lemmas

  lemma {:induction false} CountAppend(loans: seq<LoanRow>, l: LoanRow, userId: Option<int>)
    ensures CountFor(loans + [l], userId) == CountFor(loans, userId) + (if Some(l.userId) == userId then 1 else 0)
  {
    if loans != [] {
      assert (loans + [l])[1..] == loans[1..] + [l];
      CountAppend(loans[1..], l, userId);
    }
  }

  lemma {:induction false} CountWithout(loans: seq<LoanRow>, b: int, u: int, userId: Option<int>)
    ensures CountFor(Without(loans, b, u), userId) <= CountFor(loans, userId)
  {
    if loans != [] {
      CountWithout(loans[1..], b, u, userId);
      if !Matches(loans[0], b, u) {
        assert ([loans[0]] + Without(loans[1..], b, u))[1..] == Without(loans[1..], b, u);
      }
    }
  }

  lemma {:induction false} WithoutAppend(loans: seq<LoanRow>, l: LoanRow, b: int, u: int)
    ensures Without(loans + [l], b, u) == Without(loans, b, u) + (if Matches(l, b, u) then [] else [l])
  {
    if loans != [] {
      assert (loans + [l])[1..] == loans[1..] + [l];
      WithoutAppend(loans[1..], l, b, u);
    }
  }

  // ---------------------------------------------------------------- lend

  /** Lend's gates are checked in a fixed order and the first that fails
      decides the outcome; any failure leaves the store unchanged. */
  lemma LendChecksGatesInOrder(s: Store, bookId: Option<int>, userId: Option<int>)
    ensures var r := Lend(s, bookId, userId);
      var held := CountFor(s.loans, userId);
      var known := bookId.Some? && bookId.value in s.books;
      var free := known && s.books[bookId.value].lentCopies < s.books[bookId.value].totalCopies;
      && (r.outcome == LimitExceeded <==> held >= LoanLimit)
      && (r.outcome == NotFound <==> held < LoanLimit && !known)
      && (r.outcome == Unavailable <==> held < LoanLimit && known && !free)
      && (r.outcome == Constraint <==> held < LoanLimit && free && userId.None?)
      && (r.outcome == Ok <==> held < LoanLimit && free && userId.Some?)
      && (r.outcome != Ok ==> r.store == s)
  {
  }

  /** A successful lend appends exactly one loan of the pair under a fresh
      id and raises that book's lent count by one, which stays within its
      total; every other book, every user and every earlier loan is kept. */
  lemma LendRecordsOneLoan(s: Store, b: int, u: int)
    requires Lend(s, Some(b), Some(u)).outcome == Ok
    ensures var t := Lend(s, Some(b), Some(u)).store;
      && b in s.books
      && s.books[b].lentCopies < s.books[b].totalCopies
      && t.loans == s.loans + [LoanRow(s.loanSeq + 1, b, u)]
      && t.books.Keys == s.books.Keys
      && t.books[b] == s.books[b].(lentCopies := s.books[b].lentCopies + 1)
      && t.books[b].lentCopies <= t.books[b].totalCopies
      && (forall k :: k in s.books && k != b ==> t.books[k] == s.books[k])
      && t.users == s.users
      && t.loanSeq == s.loanSeq + 1 && t.bookSeq == s.bookSeq && t.userSeq == s.userSeq
  {
  }

  // ---------------------------------------------------------------- return

  /** Return deletes every loan of the pair and lowers the book's lent count
      exactly once when at least one existed; otherwise it reports NotFound
      and changes nothing. */
  lemma ReturnRemovesEveryMatch(s: Store, b: int, u: int)
    ensures var r := Return(s, Some(b), Some(u));
      && (HasLoan(s.loans, b, u) ==>
            && r.outcome == Ok
            && (forall l :: l in r.store.loans <==> l in s.loans && !Matches(l, b, u))
            && |r.store.loans| < |s.loans|
            && !HasLoan(r.store.loans, b, u)
            && (b in s.books ==> r.store.books == s.books[b := s.books[b].(lentCopies := s.books[b].lentCopies - 1)])
            && (b !in s.books ==> r.store.books == s.books)
            && r.store.users == s.users
            && r.store.bookSeq == s.bookSeq && r.store.userSeq == s.userSeq && r.store.loanSeq == s.loanSeq)
      && (!HasLoan(s.loans, b, u) ==> r.outcome == NotFound && r.store == s)
  {
  }

  /** Lending a pair that holds no loan and returning it gives back the
      same books, users and loans; only the loan id counter has moved. */
  lemma LendThenReturn(s: Store, b: int, u: int)
    requires !HasLoan(s.loans, b, u)
    requires Lend(s, Some(b), Some(u)).outcome == Ok
    ensures var r := Return(Lend(s, Some(b), Some(u)).store, Some(b), Some(u));
      r.outcome == Ok && r.store == s.(loanSeq := s.loanSeq + 1)
  {
    var t := Lend(s, Some(b), Some(u)).store;
    LendRecordsOneLoan(s, b, u);
    ReturnUndoesLastLoan(t, s.loans, LoanRow(s.loanSeq + 1, b, u));
    var book := t.books[b];
    assert t.books[b := book.(lentCopies := book.lentCopies - 1)] == s.books;
  }

  /** Returning a pair whose only loan is the last one recorded drops that
      loan and lowers the book's count by one. */
  lemma ReturnUndoesLastLoan(t: Store, earlier: seq<LoanRow>, last: LoanRow)
    requires t.loans == earlier + [last]
    requires !HasLoan(earlier, last.bookId, last.userId)
    ensures var b, u := last.bookId, last.userId;
      Return(t, Some(b), Some(u)) == Step(Ok, t.(loans := earlier, books :=
        if b in t.books then t.books[b := t.books[b].(lentCopies := t.books[b].lentCopies - 1)] else t.books))
  {
    var b, u := last.bookId, last.userId;
    WithoutNoMatch(earlier, b, u);
    WithoutAppend(earlier, last, b, u);
    assert Without(t.loans, b, u) == earlier;
  }

  /** Deleting the loans of a pair that has none keeps every loan. */
  lemma WithoutNoMatch(loans: seq<LoanRow>, b: int, u: int)
    requires !HasLoan(loans, b, u)
    ensures Without(loans, b, u) == loans
  {
    assert forall l :: l in loans ==> !Matches(l, b, u);
  }

  /** The same pair lent twice and then returned: both loans are deleted
      but the book's lent count drops only once, so one copy stays counted
      as lent with no loan behind it. */
  lemma ReturnAfterDoubleLendLeavesOneCopyLent(s: Store, b: int, u: int)
    requires !HasLoan(s.loans, b, u)
    requires Lend(s, Some(b), Some(u)).outcome == Ok
    requires Lend(Lend(s, Some(b), Some(u)).store, Some(b), Some(u)).outcome == Ok
    ensures var r := Return(Lend(Lend(s, Some(b), Some(u)).store, Some(b), Some(u)).store, Some(b), Some(u));
      && r.outcome == Ok
      && r.store.loans == s.loans
      && r.store.books[b].lentCopies == s.books[b].lentCopies + 1
  {
    var t1 := Lend(s, Some(b), Some(u)).store;
    var t2 := Lend(t1, Some(b), Some(u)).store;
    LendRecordsOneLoan(s, b, u);
    LendRecordsOneLoan(t1, b, u);
    var l1, l2 := LoanRow(s.loanSeq + 1, b, u), LoanRow(t1.loanSeq + 1, b, u);
    assert t2.loans == (s.loans + [l1]) + [l2];
    assert forall l :: l in s.loans ==> !Matches(l, b, u);
    assert Without(s.loans, b, u) == s.loans;
    WithoutAppend(s.loans, l1, b, u);
    WithoutAppend(s.loans + [l1], l2, b, u);
    assert Without(t2.loans, b, u) == s.loans;
    assert t2.books[b].lentCopies == s.books[b].lentCopies + 2;
  }

  /** A user with no loans who borrows twice is refused any third book,
      available or not, and the store is left as it was. */
  lemma ThirdLoanRefused(s: Store, b1: int, b2: int, b3: Option<int>, u: int)
    requires CountFor(s.loans, Some(u)) == 0
    requires Lend(s, Some(b1), Some(u)).outcome == Ok
    requires Lend(Lend(s, Some(b1), Some(u)).store, Some(b2), Some(u)).outcome == Ok
    ensures var t := Lend(Lend(s, Some(b1), Some(u)).store, Some(b2), Some(u)).store;
      Lend(t, b3, Some(u)) == Step(LimitExceeded, t)
  {
    var t1 := Lend(s, Some(b1), Some(u)).store;
    var t2 := Lend(t1, Some(b2), Some(u)).store;
    LendRecordsOneLoan(s, b1, u);
    LendRecordsOneLoan(t1, b2, u);
    CountAppend(s.loans, LoanRow(s.loanSeq + 1, b1, u), Some(u));
    CountAppend(t1.loans, LoanRow(t1.loanSeq + 1, b2, u), Some(u));
    assert CountFor(t2.loans, Some(u)) == LoanLimit;
  }

  /** With one copy left, two lends of the book in a row: the first takes
      the copy, the second is refused and changes nothing. */
  lemma LastCopyIsLentOnce(s: Store, b: int, u1: int, u2: int)
    requires b in s.books && s.books[b].lentCopies == s.books[b].totalCopies - 1
    requires Lend(s, Some(b), Some(u1)).outcome == Ok
    ensures var t := Lend(s, Some(b), Some(u1)).store;
      var r := Lend(t, Some(b), Some(u2));
      && t.books[b].lentCopies == s.books[b].lentCopies + 1
      && r.outcome in {LimitExceeded, Unavailable}
      && r.store == t
  {
  }

  // ---------------------------------------------------------------- invariants

  /** No user holds more than LoanLimit loans. */
  ghost predicate WithinLoanLimit(s: Store)
  {
    forall u :: CountFor(s.loans, Some(u)) <= LoanLimit
  }

  lemma LendKeepsLoanLimit(s: Store, bookId: Option<int>, userId: Option<int>)
    requires WithinLoanLimit(s)
    ensures WithinLoanLimit(Lend(s, bookId, userId).store)
  {
    var r := Lend(s, bookId, userId);
    if r.outcome == Ok {
      var b, u := bookId.value, userId.value;
      LendRecordsOneLoan(s, b, u);
      var held := CountFor(s.loans, Some(u));
      assert held < LoanLimit;
      forall v
        ensures CountFor(s.loans + [LoanRow(s.loanSeq + 1, b, u)], Some(v)) <= LoanLimit
      {
        CountAppend(s.loans, LoanRow(s.loanSeq + 1, b, u), Some(v));
      }
    }
  }

  lemma ReturnKeepsLoanLimit(s: Store, bookId: Option<int>, userId: Option<int>)
    requires WithinLoanLimit(s)
    ensures WithinLoanLimit(Return(s, bookId, userId).store)
  {
    if bookId.Some? && userId.Some? {
      forall v
        ensures CountFor(Without(s.loans, bookId.value, userId.value), Some(v)) <= LoanLimit
      {
        CountWithout(s.loans, bookId.value, userId.value, Some(v));
      }
    }
  }

  /** The users holding a loan of book b. */
  ghost function Holders(loans: seq<LoanRow>, b: int): set<int>
  {
    set l | l in loans && l.bookId == b :: l.userId
  }

  /** Every book's lent count lies between the number of distinct users
      holding it and its total: lent copies never exceed the stock, and
      a return can never drive the count below zero. */
  ghost predicate CopiesAccounted(s: Store)
  {
    forall b :: b in s.books ==>
      |Holders(s.loans, b)| <= s.books[b].lentCopies <= s.books[b].totalCopies
  }

  lemma HoldersAfterAppend(loans: seq<LoanRow>, l: LoanRow, b: int)
    ensures Holders(loans + [l], b) == if l.bookId == b then Holders(loans, b) + {l.userId} else Holders(loans, b)
  {
  }

  lemma HoldersAfterWithout(loans: seq<LoanRow>, b: int, u: int, c: int)
    ensures Holders(Without(loans, b, u), c) == if c == b then Holders(loans, c) - {u} else Holders(loans, c)
  {
  }

  lemma LendKeepsCopiesAccounted(s: Store, bookId: Option<int>, userId: Option<int>)
    requires CopiesAccounted(s)
    ensures CopiesAccounted(Lend(s, bookId, userId).store)
  {
    var r := Lend(s, bookId, userId);
    if r.outcome == Ok {
      var loan := LoanRow(s.loanSeq + 1, bookId.value, userId.value);
      forall c | c in r.store.books
        ensures |Holders(r.store.loans, c)| <= r.store.books[c].lentCopies <= r.store.books[c].totalCopies
      {
        HoldersAfterAppend(s.loans, loan, c);
        if c == bookId.value {
          assert |Holders(s.loans, c) + {loan.userId}| <= |Holders(s.loans, c)| + 1;
        }
      }
    }
  }

  lemma ReturnKeepsCopiesAccounted(s: Store, bookId: Option<int>, userId: Option<int>)
    requires CopiesAccounted(s)
    ensures CopiesAccounted(Return(s, bookId, userId).store)
  {
    var r := Return(s, bookId, userId);
    if r.outcome == Ok {
      var b, u := bookId.value, userId.value;
      forall c | c in r.store.books
        ensures |Holders(r.store.loans, c)| <= r.store.books[c].lentCopies <= r.store.books[c].totalCopies
      {
        HoldersAfterWithout(s.loans, b, u, c);
        if c == b {
          var l :| l in s.loans && Matches(l, b, u);
          assert u in Holders(s.loans, b);
          assert |Holders(s.loans, b) - {u}| == |Holders(s.loans, b)| - 1;
        }
      }
    }
  }

  lemma LendKeepsValid(s: Store, bookId: Option<int>, userId: Option<int>)
    requires Valid(s)
    ensures Valid(Lend(s, bookId, userId).store)
  {
  }

  /** Deleting loans keeps the remaining loan ids distinct. */
  lemma {:induction false} WithoutKeepsIdsDistinct(loans: seq<LoanRow>, b: int, u: int)
    requires LoanIdsDistinct(loans)
    ensures LoanIdsDistinct(Without(loans, b, u))
  {
    if loans != [] {
      var rest := loans[1..];
      assert LoanIdsDistinct(rest) by {
        forall i, j | 0 <= i < j < |rest|
          ensures rest[i].id != rest[j].id
        {
          assert rest[i] == loans[i + 1] && rest[j] == loans[j + 1];
        }
      }
      WithoutKeepsIdsDistinct(rest, b, u);
      if !Matches(loans[0], b, u) {
        var tail := Without(rest, b, u);
        var kept := [loans[0]] + tail;
        forall i, j | 0 <= i < j < |kept|
          ensures kept[i].id != kept[j].id
        {
          if i == 0 {
            assert kept[j] == tail[j - 1] && tail[j - 1] in rest;
            var m :| 0 <= m < |rest| && rest[m] == tail[j - 1];
            assert loans[m + 1] == kept[j];
          } else {
            assert kept[i] == tail[i - 1] && kept[j] == tail[j - 1];
          }
        }
      }
    }
  }

  lemma ReturnKeepsValid(s: Store, bookId: Option<int>, userId: Option<int>)
    requires Valid(s)
    ensures Valid(Return(s, bookId, userId).store)
  {
    if bookId.Some? && userId.Some? {
      WithoutKeepsIdsDistinct(s.loans, bookId.value, userId.value);
    }
  }
}
