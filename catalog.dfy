/** Book and User catalog operations as functions of the store: what
    `save`, `get` and `delete` in library.py do to the tables and report. */
module Catalog {
  import opened Tables

  /** The attributes of an in-memory Book handle (the Python object), id aside. */
  datatype BookFields = BookFields(
    title: Option<string>,
    author: Option<string>,
    year: Option<int>,
    totalCopies: int,
    lentCopies: int)

  /** The attributes of an in-memory User handle, id aside. */
  datatype UserFields = UserFields(
    firstName: Option<string>,
    lastName: Option<string>,
    age: int,
    gender: Option<string>,
    email: Option<string>)

  /** What a save or delete leaves behind: the outcome it reports, the
      handle's id afterwards, and the store. */
  datatype Saved = Saved(outcome: Outcome, id: Option<int>, store: Store)

  /** The result of a lookup: the first matching row with its id, or an error. */
  datatype Lookup<T> = Found(id: int, row: T) | Missing(error: Outcome)

  function BookRowOf(f: BookFields): BookRow
    requires f.author.Some?
  {
    BookRow(f.title, f.author.value, f.year, f.totalCopies, f.lentCopies)
  }

  function UserRowOf(f: UserFields): UserRow
    requires f.gender.Some? && f.email.Some?
  {
    UserRow(f.firstName, f.lastName, f.age, f.gender.value, f.email.value)
  }

  // ---------------------------------------------------------------- books

  /** Book.save: with no id, INSERT under the next AUTOINCREMENT id; with an
      id, UPDATE that whole row, which touches nothing when the id is absent.
      A NULL author violates NOT NULL on a row actually written. */
  function SaveBook(s: Store, id: Option<int>, f: BookFields): (r: Saved)
    ensures r.outcome != Ok ==> r.store == s && r.id == id
    ensures r.outcome == Ok ==> r.id.Some? && r.id.value in r.store.books && f.author.Some?
    ensures r.store.bookSeq >= s.bookSeq && r.store.users == s.users && r.store.loans == s.loans
    ensures r.store.userSeq == s.userSeq && r.store.loanSeq == s.loanSeq
  {
    match id
    case None =>
      if f.author.None? then Saved(Constraint, id, s)
      else
        var newId := s.bookSeq + 1;
        Saved(Ok, Some(newId), s.(books := s.books[newId := BookRowOf(f)], bookSeq := newId))
    case Some(k) =>
      if k !in s.books then Saved(NotFound, id, s)
      else if f.author.None? then Saved(Constraint, id, s)
      else Saved(Ok, id, s.(books := s.books[k := BookRowOf(f)]))
  }

  /** Book.delete: DELETE by id; on success the handle's id is cleared.
      Loans of the book stay (foreign keys are not enforced). */
  function DeleteBook(s: Store, id: Option<int>): (r: Saved)
    ensures r.outcome == Ok <==> id.Some? && id.value in s.books
    ensures r.outcome == Ok ==> r.id.None? && id.value !in r.store.books && r.store.books.Keys <= s.books.Keys
    ensures forall k :: k in r.store.books ==> k in s.books && r.store.books[k] == s.books[k]
    ensures r.store.bookSeq == s.bookSeq && r.store.users == s.users && r.store.loans == s.loans
    ensures r.store.userSeq == s.userSeq && r.store.loanSeq == s.loanSeq
  {
    if id.Some? && id.value in s.books then Saved(Ok, None, s.(books := s.books - {id.value}))
    else Saved(NotFound, id, s)
  }

  /** A search argument counts only when it is a non-empty string. */
  predicate Given(arg: Option<string>)
  {
    arg.Some? && arg.value != []
  }

  predicate OccursAt(hay: string, needle: string, i: int)
  {
    0 <= i && i + |needle| <= |hay| && hay[i..i + |needle|] == needle
  }

  /** Whether `needle` is a substring of `hay` (the `LIKE '%needle%'` match,
      without case folding and wildcards inside the argument). */
  function Contains(hay: string, needle: string): (found: bool)
    ensures found <==> exists i :: OccursAt(hay, needle, i)
    decreases |hay|
  {
    if |hay| < |needle| then false
    else if hay[..|needle|] == needle then
      assert OccursAt(hay, needle, 0);
      true
    else
      var rest := Contains(hay[1..], needle);
      assert forall i :: OccursAt(hay[1..], needle, i) ==> OccursAt(hay, needle, i + 1);
      assert forall i :: OccursAt(hay, needle, i) && i != 0 ==> OccursAt(hay[1..], needle, i - 1);
      rest
  }

  /** The WHERE clause of Book.get: `title LIKE ? OR author LIKE ?`, each
      disjunct present only when its argument is given. A NULL title never
      matches. */
  predicate BookMatches(row: BookRow, title: Option<string>, author: Option<string>)
  {
    || (Given(title) && row.title.Some? && Contains(row.title.value, title.value))
    || (Given(author) && Contains(row.author, author.value))
  }

  /** The first row, in id order, whose id lies in [from, last] and which
      satisfies `matches` — the row `fetchone` gets from a table scan. */
  function FirstRow<T>(rows: map<int, T>, matches: T -> bool, from: int, last: int): (r: Option<int>)
    ensures r.Some? ==> from <= r.value <= last && r.value in rows && matches(rows[r.value])
    ensures r.Some? ==> forall j :: from <= j < r.value && j in rows ==> !matches(rows[j])
    ensures r.None? ==> forall j :: from <= j <= last && j in rows ==> !matches(rows[j])
    decreases last - from
  {
    if last < from then None
    else if from in rows && matches(rows[from]) then Some(from)
    else FirstRow(rows, matches, from + 1, last)
  }

  /** Book.get: at least one non-empty argument is required; the first row
      matching either argument is returned, otherwise NotFound. */
  function GetBook(s: Store, title: Option<string>, author: Option<string>): (r: Lookup<BookRow>)
    ensures r.Found? ==> r.id in s.books && r.row == s.books[r.id] && BookMatches(r.row, title, author)
    ensures r.Missing? ==> r.error in {Validation, NotFound}
  {
    if !Given(title) && !Given(author) then Missing(Validation)
    else
      match FirstRow(s.books, (row: BookRow) => BookMatches(row, title, author), 1, s.bookSeq)
      case Some(k) => Found(k, s.books[k])
      case None => Missing(NotFound)
  }

  // ---------------------------------------------------------------- users

  /** Whether a user other than `except` already has this email. */
  predicate EmailTaken(users: map<int, UserRow>, email: string, except: Option<int>)
  {
    exists j | j in users :: users[j].email == email && Some(j) != except
  }

  /** User.save: the age gate runs first, on insert and update alike; then
      the INSERT or UPDATE, subject to NOT NULL and UNIQUE(email). An UPDATE
      of an absent id writes no row and so violates nothing. */
  function SaveUser(s: Store, id: Option<int>, f: UserFields): (r: Saved)
    ensures r.outcome != Ok ==> r.store == s && r.id == id
    ensures r.outcome == Ok ==>
      && f.age >= MinAge && f.email.Some? && r.id.Some?
      && r.id.value in r.store.users && r.store.users[r.id.value].email == f.email.value
      && !EmailTaken(s.users, f.email.value, id)
    ensures r.store.userSeq >= s.userSeq && r.store.books == s.books && r.store.loans == s.loans
    ensures r.store.bookSeq == s.bookSeq && r.store.loanSeq == s.loanSeq
  {
    if f.age < MinAge then Saved(Validation, id, s)
    else match id
      case None =>
        if f.gender.None? || f.email.None? then Saved(Constraint, id, s)
        else if EmailTaken(s.users, f.email.value, None) then Saved(Conflict, id, s)
        else
          var newId := s.userSeq + 1;
          Saved(Ok, Some(newId), s.(users := s.users[newId := UserRowOf(f)], userSeq := newId))
      case Some(k) =>
        if k !in s.users then Saved(NotFound, id, s)
        else if f.gender.None? || f.email.None? then Saved(Constraint, id, s)
        else if EmailTaken(s.users, f.email.value, id) then Saved(Conflict, id, s)
        else Saved(Ok, id, s.(users := s.users[k := UserRowOf(f)]))
  }

  /** User.get's WHERE clause as a row filter. */
  function WithEmail(email: string): UserRow -> bool
  {
    (row: UserRow) => row.email == email
  }

  /** User.get: exact match on email; `email = NULL` matches no row. */
  function GetUser(s: Store, email: Option<string>): (r: Lookup<UserRow>)
    ensures r.Found? ==> email.Some? && r.id in s.users && r.row == s.users[r.id] && r.row.email == email.value
    ensures r.Missing? ==> r.error == NotFound
  {
    if email.None? then Missing(NotFound)
    else
      match FirstRow(s.users, WithEmail(email.value), 1, s.userSeq)
      case Some(k) => Found(k, s.users[k])
      case None => Missing(NotFound)
  }

  /** User.delete: DELETE by id; on success the handle's id is cleared.
      Loans of the user stay. */
  function DeleteUser(s: Store, id: Option<int>): (r: Saved)
    ensures r.outcome == Ok <==> id.Some? && id.value in s.users
    ensures r.outcome == Ok ==> r.id.None? && id.value !in r.store.users && r.store.users.Keys <= s.users.Keys
    ensures forall k :: k in r.store.users ==> k in s.users && r.store.users[k] == s.users[k]
    ensures r.store.userSeq == s.userSeq && r.store.books == s.books && r.store.loans == s.loans
    ensures r.store.bookSeq == s.bookSeq && r.store.loanSeq == s.loanSeq
  {
    if id.Some? && id.value in s.users then Saved(Ok, None, s.(users := s.users - {id.value}))
    else Saved(NotFound, id, s)
  }

  // ---------------------------------------------------------------- properties

  /** Book.save without an id inserts under an id above every id issued so
      far (AUTOINCREMENT never reuses one); only a NULL author stops it. */
  lemma SaveBookInsertsUnderFreshId(s: Store, f: BookFields)
    requires Valid(s)
    ensures var r := SaveBook(s, None, f);
      && (r.outcome == Ok <==> f.author.Some?)
      && (r.outcome != Ok ==> r.outcome == Constraint && r.store == s && r.id.None?)
      && (r.outcome == Ok ==>
            && r.id.Some? && r.id.value == s.bookSeq + 1
            && (forall k :: k in s.books ==> k < r.id.value)
            && r.store.books == s.books[r.id.value := BookRowOf(f)]
            && r.store.bookSeq == r.id.value
            && r.store.users == s.users && r.store.loans == s.loans
            && r.store.userSeq == s.userSeq && r.store.loanSeq == s.loanSeq)
  {
  }

  /** Book.save with an id overwrites the whole row of that id; when no row
      has it nothing changes and NotFound is reported. */
  lemma SaveBookOverwritesById(s: Store, k: int, f: BookFields)
    ensures var r := SaveBook(s, Some(k), f);
      && r.id == Some(k)
      && (k !in s.books ==> r.outcome == NotFound && r.store == s)
      && (k in s.books && f.author.None? ==> r.outcome == Constraint && r.store == s)
      && (k in s.books && f.author.Some? ==>
            r.outcome == Ok && r.store == s.(books := s.books[k := BookRowOf(f)]))
  {
  }

  /** Book.delete removes exactly the row of the handle's id and clears the
      id; otherwise nothing changes. Loans naming the book are kept. */
  lemma DeleteBookRemovesRow(s: Store, id: Option<int>)
    ensures var r := DeleteBook(s, id);
      && (r.outcome == Ok <==> id.Some? && id.value in s.books)
      && (r.outcome == Ok ==>
            && r.id.None? && r.store.books.Keys == s.books.Keys - {id.value}
            && (forall k :: k in r.store.books ==> r.store.books[k] == s.books[k])
            && r.store.loans == s.loans && r.store.users == s.users
            && r.store.bookSeq == s.bookSeq && r.store.userSeq == s.userSeq && r.store.loanSeq == s.loanSeq)
      && (r.outcome != Ok ==> r.outcome == NotFound && r.store == s && r.id == id)
  {
  }

  /** User.delete removes exactly the row of the handle's id and clears the
      id; otherwise nothing changes. Loans of the user are kept. */
  lemma DeleteUserRemovesRow(s: Store, id: Option<int>)
    ensures var r := DeleteUser(s, id);
      && (r.outcome == Ok <==> id.Some? && id.value in s.users)
      && (r.outcome == Ok ==>
            && r.id.None? && r.store.users.Keys == s.users.Keys - {id.value}
            && (forall k :: k in r.store.users ==> r.store.users[k] == s.users[k])
            && r.store.loans == s.loans && r.store.books == s.books
            && r.store.bookSeq == s.bookSeq && r.store.userSeq == s.userSeq && r.store.loanSeq == s.loanSeq)
      && (r.outcome != Ok ==> r.outcome == NotFound && r.store == s && r.id == id)
  {
  }

  /** Which outcome User.save reports, each exactly when its gate is the
      first to fail: an age below MinAge before anything else, on insert and
      update alike; then an absent id; then a NULL gender or email; then a
      taken email. It succeeds exactly when every gate passes, and every
      failing save leaves the store and the handle unchanged. */
  lemma SaveUserDecidesOutcome(s: Store, id: Option<int>, f: UserFields)
    ensures var r := SaveUser(s, id, f);
      && (r.outcome == Validation <==> f.age < MinAge)
      && (r.outcome == NotFound <==> f.age >= MinAge && id.Some? && id.value !in s.users)
      && (r.outcome == Constraint <==>
            f.age >= MinAge && (id.None? || id.value in s.users) && (f.gender.None? || f.email.None?))
      && (r.outcome == Ok <==>
            && f.age >= MinAge && f.gender.Some? && f.email.Some? && (id.None? || id.value in s.users)
            && !EmailTaken(s.users, f.email.value, id))
      && ((f.age >= MinAge && f.gender.Some? && f.email.Some? && (id.None? || id.value in s.users))
            ==> (r.outcome == Conflict <==> EmailTaken(s.users, f.email.value, id)))
      && (r.outcome != Ok ==> r.store == s && r.id == id)
  {
  }

  /** A successful User.save writes the row under the handle's id, or under
      a fresh id above every id issued when the handle had none. */
  lemma SaveUserWritesRow(s: Store, id: Option<int>, f: UserFields)
    requires Valid(s)
    ensures var r := SaveUser(s, id, f);
      r.outcome == Ok ==>
        && f.age >= MinAge && f.gender.Some? && f.email.Some?
        && r.id.Some?
        && (id.None? ==>
              && r.id.value == s.userSeq + 1 && r.store.userSeq == r.id.value
              && forall k :: k in s.users ==> k < r.id.value)
        && (id.Some? ==> r.id == id && id.value in s.users && r.store.userSeq == s.userSeq)
        && r.store.users == s.users[r.id.value := UserRowOf(f)]
        && r.store.books == s.books && r.store.loans == s.loans
        && r.store.bookSeq == s.bookSeq && r.store.loanSeq == s.loanSeq
  {
  }

  lemma SaveBookKeepsValid(s: Store, id: Option<int>, f: BookFields)
    requires Valid(s)
    ensures Valid(SaveBook(s, id, f).store)
  {
  }

  lemma DeleteBookKeepsValid(s: Store, id: Option<int>)
    requires Valid(s)
    ensures Valid(DeleteBook(s, id).store)
  {
  }

  lemma DeleteUserKeepsValid(s: Store, id: Option<int>)
    requires Valid(s)
    ensures Valid(DeleteUser(s, id).store)
  {
  }

  /** User.save keeps emails unique: a save that would duplicate one is
      refused with Conflict. */
  lemma SaveUserKeepsValid(s: Store, id: Option<int>, f: UserFields)
    requires Valid(s)
    ensures Valid(SaveUser(s, id, f).store)
  {
  }

  /** Book.get: Validation exactly when neither argument is given; a found
      row matches and no row of a smaller id does; NotFound exactly when no
      row matches. */
  lemma GetBookFindsFirstMatch(s: Store, title: Option<string>, author: Option<string>)
    requires Valid(s)
    ensures var r := GetBook(s, title, author);
      && (r == Missing(Validation) <==> !Given(title) && !Given(author))
      && (r.Found? ==>
            && r.id in s.books && r.row == s.books[r.id] && BookMatches(r.row, title, author)
            && forall j :: j in s.books && j < r.id ==> !BookMatches(s.books[j], title, author))
      && (r == Missing(NotFound) <==>
            (Given(title) || Given(author)) && forall j :: j in s.books ==> !BookMatches(s.books[j], title, author))
  {
  }

  /** User.get: a found row has exactly the email asked for and is the only
      such row; NotFound exactly when no row has it. */
  lemma GetUserMatchesEmail(s: Store, email: Option<string>)
    requires Valid(s)
    ensures var r := GetUser(s, email);
      && (r.Found? ==>
            && email.Some? && r.id in s.users && r.row == s.users[r.id] && r.row.email == email.value
            && forall j :: j in s.users && s.users[j].email == email.value ==> j == r.id)
      && (r.Missing? ==>
            r.error == NotFound && forall j :: j in s.users ==> email != Some(s.users[j].email))
  {
  }

  /** AUTOINCREMENT never hands out the id of a deleted book again: the
      next insert after deleting row k gets an id above k. */
  lemma DeletedBookIdNotReused(s: Store, k: int, f: BookFields)
    requires Valid(s) && k in s.books && f.author.Some?
    ensures var t := DeleteBook(s, Some(k)).store;
      k !in t.books && SaveBook(t, None, f).outcome == Ok && SaveBook(t, None, f).id.value > k
  {
  }

  /** Likewise for users: a successful insert after deleting user k gets an
      id above k. */
  lemma DeletedUserIdNotReused(s: Store, k: int, f: UserFields)
    requires Valid(s) && k in s.users
    requires SaveUser(DeleteUser(s, Some(k)).store, None, f).outcome == Ok
    ensures SaveUser(DeleteUser(s, Some(k)).store, None, f).id.value > k
  {
  }

  /** Saving a book with a title and then looking that title up finds a row. */
  lemma SavedBookIsFoundByTitle(s: Store, f: BookFields)
    requires Valid(s)
    requires Given(f.title)
    requires SaveBook(s, None, f).outcome == Ok
    ensures GetBook(SaveBook(s, None, f).store, f.title, None).Found?
  {
    var r := SaveBook(s, None, f);
    var t := f.title.value;
    assert OccursAt(t, t, 0);
    assert BookMatches(r.store.books[r.id.value], f.title, None);
  }

  /** Saving a user and then looking up its email yields that very row. */
  lemma SavedUserIsFoundByEmail(s: Store, id: Option<int>, f: UserFields)
    requires Valid(s)
    requires SaveUser(s, id, f).outcome == Ok
    ensures var r := SaveUser(s, id, f);
      GetUser(r.store, f.email) == Found(r.id.value, UserRowOf(f))
  {
    var r := SaveUser(s, id, f);
    SaveUserKeepsValid(s, id, f);
    SaveUserWritesRow(s, id, f);
    var k := r.id.value;
    assert k in r.store.users && r.store.users[k].email == f.email.value;
  }
}
