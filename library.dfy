/** The classes of library.py. A Database object holds the three tables
    and their id counters in fields; Book and User objects are handles whose
    `Save` and `Delete` write through to a Database and update the handle's
    id; Loan's static methods run the lend/return transactions. Each method
    changes the fields step by step, as the SQL statements do, and its
    postcondition ties the new state to the specification functions of the
    Catalog and Ledger modules. */
module Library {
  import opened Tables
  import Catalog
  import Ledger

  /** The database: the rows of books, users and loans, and the largest id
      AUTOINCREMENT has issued in each table. */
  class Database {
    var books: map<int, BookRow>
    var users: map<int, UserRow>
    var loans: seq<LoanRow>
    var bookSeq: int
    var userSeq: int
    var loanSeq: int

    /** The tables as a value. */
    function State(): Store
      reads this
    {
      Store(books, users, loans, bookSeq, userSeq, loanSeq)
    }

    /** What the schema and AUTOINCREMENT guarantee of the tables. */
    ghost predicate Valid()
      reads this
    {
      Tables.Valid(State())
    }

    /** A database whose three tables have just been created. */
    constructor ()
      ensures State() == Empty && Valid()
    {
      books, users, loans := map[], map[], [];
      bookSeq, userSeq, loanSeq := 0, 0, 0;
    }
  }

  /** A Book handle: the attributes of one book and the id of its row, if any. */
  class Book {
    var id: Option<int>
    var title: Option<string>
    var author: Option<string>
    var year: Option<int>
    var totalCopies: int
    var lentCopies: int

    constructor (id: Option<int> := None, title: Option<string> := None, author: Option<string> := None,
                 year: Option<int> := None, totalCopies: int := 1, lentCopies: int := 0)
      ensures this.id == id
      ensures Fields() == Catalog.BookFields(title, author, year, totalCopies, lentCopies)
    {
      this.id := id;
      this.title, this.author, this.year := title, author, year;
      this.totalCopies, this.lentCopies := totalCopies, lentCopies;
    }

    function Fields(): Catalog.BookFields
      reads this
    {
      Catalog.BookFields(title, author, year, totalCopies, lentCopies)
    }

    /** Inserts the book when the handle has no id (and records the new id
        in the handle), otherwise updates the row with the handle's id. */
    method Save(db: Database) returns (outcome: Outcome)
      requires db.Valid()
      modifies this`id, db
      ensures var r := Catalog.SaveBook(old(db.State()), old(id), Fields());
        outcome == r.outcome && id == r.id && db.State() == r.store
      ensures db.Valid()
    {
      Catalog.SaveBookKeepsValid(db.State(), id, Fields());
      outcome := Ok;
      if id.None? {
        if author.None? {
          outcome := Constraint;
          return;
        }
        var newId := db.bookSeq + 1;
        db.books := db.books[newId := BookRow(title, author.value, year, totalCopies, lentCopies)];
        db.bookSeq := newId;
        id := Some(newId);
      } else if id.value !in db.books {
        outcome := NotFound;
      } else if author.None? {
        outcome := Constraint;
      } else {
        db.books := db.books[id.value := BookRow(title, author.value, year, totalCopies, lentCopies)];
      }
    }

    /** Book.get: the first book whose title or author contains the given text. */
    static function Get(db: Database, title: Option<string> := None, author: Option<string> := None): (r: Catalog.Lookup<BookRow>)
      requires db.Valid()
      reads db
      ensures r == Catalog.Missing(Validation) <==> !Catalog.Given(title) && !Catalog.Given(author)
      ensures r.Found? ==>
        && r.id in db.books && r.row == db.books[r.id] && Catalog.BookMatches(r.row, title, author)
        && forall j :: j in db.books && j < r.id ==> !Catalog.BookMatches(db.books[j], title, author)
      ensures r == Catalog.Missing(NotFound) <==>
        (Catalog.Given(title) || Catalog.Given(author)) && forall j :: j in db.books ==> !Catalog.BookMatches(db.books[j], title, author)
    {
      Catalog.GetBookFindsFirstMatch(db.State(), title, author);
      Catalog.GetBook(db.State(), title, author)
    }

    /** Deletes the row with the handle's id and clears the id. */
    method Delete(db: Database) returns (outcome: Outcome)
      requires db.Valid()
      modifies this`id, db
      ensures var r := Catalog.DeleteBook(old(db.State()), old(id));
        outcome == r.outcome && id == r.id && db.State() == r.store
      ensures db.Valid()
    {
      Catalog.DeleteBookKeepsValid(db.State(), id);
      if id.Some? && id.value in db.books {
        db.books := db.books - {id.value};
        id := None;
        outcome := Ok;
      } else {
        outcome := NotFound;
      }
    }
  }

  /** A User handle: the attributes of one user and the id of its row, if any. */
  class User {
    var id: Option<int>
    var firstName: Option<string>
    var lastName: Option<string>
    var age: int
    var gender: Option<string>
    var email: Option<string>

    constructor (age: int, id: Option<int> := None, firstName: Option<string> := None,
                 lastName: Option<string> := None, gender: Option<string> := None,
                 email: Option<string> := None)
      ensures this.id == id
      ensures Fields() == Catalog.UserFields(firstName, lastName, age, gender, email)
    {
      this.id := id;
      this.firstName, this.lastName, this.age := firstName, lastName, age;
      this.gender, this.email := gender, email;
    }

    function Fields(): Catalog.UserFields
      reads this
    {
      Catalog.UserFields(firstName, lastName, age, gender, email)
    }

    /** Checks the age, then inserts or updates like Book.Save, under the
        NOT NULL and UNIQUE(email) constraints of the users table. */
    method Save(db: Database) returns (outcome: Outcome)
      requires db.Valid()
      modifies this`id, db
      ensures var r := Catalog.SaveUser(old(db.State()), old(id), Fields());
        outcome == r.outcome && id == r.id && db.State() == r.store
      ensures db.Valid()
    {
      Catalog.SaveUserKeepsValid(db.State(), id, Fields());
      if age < MinAge {
        return Validation;
      }
      outcome := Ok;
      if id.None? {
        if gender.None? || email.None? {
          outcome := Constraint;
        } else if exists j | j in db.users :: db.users[j].email == email.value {
          outcome := Conflict;
        } else {
          var newId := db.userSeq + 1;
          db.users := db.users[newId := UserRow(firstName, lastName, age, gender.value, email.value)];
          db.userSeq := newId;
          id := Some(newId);
        }
      } else if id.value !in db.users {
        outcome := NotFound;
      } else if gender.None? || email.None? {
        outcome := Constraint;
      } else if exists j | j in db.users :: db.users[j].email == email.value && j != id.value {
        outcome := Conflict;
      } else {
        db.users := db.users[id.value := UserRow(firstName, lastName, age, gender.value, email.value)];
      }
    }

    /** User.get: the user with exactly this email. */
    static function Get(db: Database, email: Option<string>): (r: Catalog.Lookup<UserRow>)
      requires db.Valid()
      reads db
      ensures r.Found? ==>
        && email == Some(r.row.email) && r.id in db.users && r.row == db.users[r.id]
        && forall j :: j in db.users && db.users[j].email == r.row.email ==> j == r.id
      ensures r.Missing? ==> r.error == NotFound
      ensures r.Missing? <==> forall j :: j in db.users ==> email != Some(db.users[j].email)
    {
      Catalog.GetUserMatchesEmail(db.State(), email);
      Catalog.GetUser(db.State(), email)
    }

    /** Deletes the row with the handle's id and clears the id. */
    method Delete(db: Database) returns (outcome: Outcome)
      requires db.Valid()
      modifies this`id, db
      ensures var r := Catalog.DeleteUser(old(db.State()), old(id));
        outcome == r.outcome && id == r.id && db.State() == r.store
      ensures db.Valid()
    {
      Catalog.DeleteUserKeepsValid(db.State(), id);
      if id.Some? && id.value in db.users {
        db.users := db.users - {id.value};
        id := None;
        outcome := Ok;
      } else {
        outcome := NotFound;
      }
    }
  }

  /** The loan operations, which act on the database alone. */
  class Loan {
    /** Counts the user's loans, looks the book up, compares its counts,
        then inserts the loan and raises the book's lent count. */
    static method LendBook(db: Database, bookId: Option<int>, userId: Option<int>) returns (outcome: Outcome)
      requires db.Valid()
      modifies db
      ensures var r := Ledger.Lend(old(db.State()), bookId, userId);
        outcome == r.outcome && db.State() == r.store
      ensures db.Valid()
    {
      Ledger.LendKeepsValid(db.State(), bookId, userId);
      var currentLoans := Ledger.CountFor(db.loans, userId);
      if currentLoans >= LoanLimit {
        return LimitExceeded;
      }
      if bookId.None? || bookId.value !in db.books {
        return NotFound;
      }
      var book := db.books[bookId.value];
      if book.lentCopies >= book.totalCopies {
        return Unavailable;
      }
      if userId.None? {
        return Constraint;
      }
      var loanId := db.loanSeq + 1;
      db.loans := db.loans + [LoanRow(loanId, bookId.value, userId.value)];
      db.loanSeq := loanId;
      db.books := db.books[bookId.value := book.(lentCopies := book.lentCopies + 1)];
      outcome := Ok;
    }

    /** Deletes every loan of the pair; when any was deleted, lowers the
        book's lent count by one. */
    static method ReturnBook(db: Database, bookId: Option<int>, userId: Option<int>) returns (outcome: Outcome)
      requires db.Valid()
      modifies db
      ensures var r := Ledger.Return(old(db.State()), bookId, userId);
        outcome == r.outcome && db.State() == r.store
      ensures db.Valid()
    {
      Ledger.ReturnKeepsValid(db.State(), bookId, userId);
      if bookId.None? || userId.None? {
        return NotFound;
      }
      var b, u := bookId.value, userId.value;
      var kept := Ledger.Without(db.loans, b, u);
      var rowCount := |db.loans| - |kept|;
      if rowCount == 0 {
        return NotFound;
      }
      db.loans := kept;
      if b in db.books {
        var book := db.books[b];
        db.books := db.books[b := book.(lentCopies := book.lentCopies - 1)];
      }
      outcome := Ok;
    }
  }

  /** An under-age user is refused and no row is written. */
  method UnderageScenario(db: Database) returns (outcome: Outcome)
    requires db.Valid()
    modifies db
    ensures outcome == Validation && db.State() == old(db.State())
  {
    var minor := new User(14, firstName := Some("Jane"), lastName := Some("Doe"), gender := Some("Female"),
                          email := Some("jane.doe@example.com"));
    outcome := minor.Save(db);
  }

  /** A second user with an email already stored is refused; the first row
      is untouched. */
  method DuplicateEmailScenario() returns (db: Database, second: Outcome)
    ensures second == Conflict
    ensures db.users == map[1 := UserRow(None, None, 30, "Female", "alice@example.com")]
  {
    db := new Database();
    var first := new User(30, gender := Some("Female"), email := Some("alice@example.com"));
    var o := first.Save(db);
    var copy := new User(40, gender := Some("Male"), email := Some("alice@example.com"));
    second := copy.Save(db);
  }
}
