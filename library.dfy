/**
 * The lending state machine of backend/app.py. The SQLite tables `Books`,
 * `Loans` and `Users` are maps from row id to row, held by one `Database`
 * object whose methods are the Flask endpoints that change or list them.
 * The caller's identity (from the JWT) and account string (from their user
 * row), and the current time in seconds, are parameters.
 */
module Library {
  import opened Wrappers
  import opened Text
  import Uploads
  import Accounts
  import Sets

  const SecondsPerDay: int := 86400

  /** An availability slot. Only 'available' and 'taken' are ever written to `status` and `copyStatus`. */
  datatype Slot = Available | Taken

  /** A row of `Books`: `status` is the original copy, `copyStatus` the second copy. */
  datatype Book = Book(
    name: string,
    author: string,
    yearPublished: int,
    description: Option<string>,
    image: Option<string>,
    loanType: int,
    status: Slot,
    copyStatus: Slot)

  /** A row of `Loans`; `returnDate` is the due date (a nullable column). */
  datatype Loan = Loan(userId: int, bookId: int, loanDate: int, returnDate: Option<int>)

  /** The fields of the multipart form sent to add or edit a book; `None` is a field left out. */
  datatype BookForm = BookForm(
    name: Option<string>,
    author: Option<string>,
    yearPublished: Option<int>,
    description: Option<string>,
    loanType: Option<int>)

  /** What an endpoint answers; `HttpStatus` gives the status code. */
  datatype Outcome =
    | Success          // 200
    | Created          // 201
    | AlreadyLoaned    // 400 'You have already loaned this book.'
    | NoCopyAvailable  // 400 'All copies of the book are currently on loan.'
    | InvalidLoanType  // 400 'Invalid loan type.'
    | BookMissing      // 404 'The book does not exist.' / 'Book not found.' / 'Associated book not found.'
    | LoanMissing      // 404 'Loan record not found.'
    | NotAuthorized    // 403 'You are not authorized to return this book.'
    | PermissionDenied // 403 only admin users may do this
    | ServerError      // 500 the commit failed or the handler raised

  /** Only `Success` and `Created` are 2xx answers, only `ServerError` is a 5xx one; every refusal is a 4xx. */
  function HttpStatus(o: Outcome): (s: int)
    ensures 200 <= s < 300 <==> o == Success || o == Created
    ensures 500 <= s < 600 <==> o == ServerError
    ensures 400 <= s < 500 <==> !(o == Success || o == Created || o == ServerError)
  {
    match o
    case Success => 200
    case Created => 201
    case AlreadyLoaned => 400
    case NoCopyAvailable => 400
    case InvalidLoanType => 400
    case BookMissing => 404
    case LoanMissing => 404
    case NotAuthorized => 403
    case PermissionDenied => 403
    case ServerError => 500
  }

  /** One entry of a loan listing (`/user/loans` rows carry no user id, `/admin/loans` rows do). */
  datatype LoanRow = LoanRow(
    loanId: int,
    userId: Option<int>,
    bookId: int,
    name: string,
    author: string,
    yearPublished: int,
    description: Option<string>,
    image: Option<string>,
    loanDate: int,
    returnDate: Option<int>,
    late: bool)

  datatype Listing = Listed(rows: seq<LoanRow>) | Refused(outcome: Outcome)

  // ---------------------------------------------------------------------------
  // Loan durations and lateness

  /** The loan-type table `{1: 10, 2: 5, 3: 2}` in days; other types have no entry. */
  function LoanDays(loanType: int): (d: Option<nat>)
    ensures d.Some? <==> 1 <= loanType <= 3
    ensures d.Some? ==> d.value > 0
  {
    var table := map[1 := 10, 2 := 5, 3 := 2];
    if loanType in table then Some(table[loanType]) else None
  }

  /** A lower loan type never allows a shorter loan. */
  lemma LoanDaysDecreasing(s: int, t: int)
    requires LoanDays(s).Some? && LoanDays(t).Some? && s < t
    ensures LoanDays(s).value > LoanDays(t).value
  {
  }

  /** The due date of a loan taken at `now` for `days` days. */
  function DueDate(now: int, days: nat): int {
    now + days * SecondsPerDay
  }

  /** The `late` flag: the due date exists and lies strictly before `now`. */
  predicate IsLate(returnDate: Option<int>, now: int) {
    returnDate.Some? && returnDate.value < now
  }

  /** A loan due `days` days after `start` is late at `now` exactly when more than that time has passed. */
  lemma LateExactlyAfterDue(start: int, days: nat, now: int)
    ensures IsLate(Some(DueDate(start, days)), now) <==> now - start > days * SecondsPerDay
  {
  }

  /** A loan that is late stays late; a loan without a due date is never late. */
  lemma LateIsMonotone(returnDate: Option<int>, now: int, later: int)
    requires now <= later
    ensures IsLate(returnDate, now) ==> IsLate(returnDate, later)
    ensures returnDate.None? ==> !IsLate(returnDate, later)
  {
  }

  // ---------------------------------------------------------------------------
  // The two slots of a book

  function TakenSlots(b: Book): (n: nat)
    ensures n <= 2
    ensures n == 0 <==> b.status == Available && b.copyStatus == Available
  {
    (if b.status == Taken then 1 else 0) + (if b.copyStatus == Taken then 1 else 0)
  }

  predicate HasFreeSlot(b: Book) {
    b.status == Available || b.copyStatus == Available
  }

  /** What `loan_book` does to a book with a free slot: take the original if free, else the copy. */
  function TakeSlot(b: Book): (r: Book)
    requires HasFreeSlot(b)
    ensures TakenSlots(r) == TakenSlots(b) + 1
    ensures r.(status := b.status, copyStatus := b.copyStatus) == b
    ensures b.status == Available ==> r.copyStatus == b.copyStatus
    ensures b.status == Taken ==> r.status == Taken
  {
    if b.status == Available then b.(status := Taken) else b.(copyStatus := Taken)
  }

  /** What `return_book` does to a book: free the copy if taken, else the original if taken. */
  function FreeSlot(b: Book): (r: Book)
    ensures TakenSlots(b) > 0 ==> TakenSlots(r) == TakenSlots(b) - 1
    ensures TakenSlots(b) == 0 ==> r == b
    ensures r.(status := b.status, copyStatus := b.copyStatus) == b
    ensures b.copyStatus == Taken ==> r.status == b.status
  {
    if b.copyStatus == Taken then b.(copyStatus := Available)
    else if b.status == Taken then b.(status := Available)
    else b
  }

  /**
   * Taking a slot and then freeing one restores the book exactly, unless only the
   * original was free: then the copy is freed instead and the slots end up swapped.
   */
  lemma FreeAfterTake(b: Book)
    requires HasFreeSlot(b)
    ensures TakenSlots(FreeSlot(TakeSlot(b))) == TakenSlots(b)
    ensures FreeSlot(TakeSlot(b)) == b <==> !(b.status == Available && b.copyStatus == Taken)
  {
  }

  // ---------------------------------------------------------------------------
  // The tables and their consistency

  /** The ids of the loans on book `bookId`. */
  function LoansOn(loans: map<int, Loan>, bookId: int): set<int> {
    set l | l in loans && loans[l].bookId == bookId
  }

  /** The query of `loan_book`'s first guard: does `userId` already hold a loan on `bookId`? */
  predicate HasLoan(loans: map<int, Loan>, userId: int, bookId: int) {
    exists l :: l in loans && loans[l].userId == userId && loans[l].bookId == bookId
  }

  /** Every loan names an existing book. */
  ghost predicate LoansReferToBooks(books: map<int, Book>, loans: map<int, Loan>) {
    forall l :: l in loans ==> loans[l].bookId in books
  }

  /** Every book has exactly as many taken slots as outstanding loans. */
  ghost predicate SlotsMatchLoans(books: map<int, Book>, loans: map<int, Loan>) {
    forall b :: b in books ==> TakenSlots(books[b]) == |LoansOn(loans, b)|
  }

  /** Nobody holds two loans on one book. */
  ghost predicate OneLoanPerReader(loans: map<int, Loan>) {
    forall l, m ::
      (l in loans && m in loans && loans[l].userId == loans[m].userId && loans[l].bookId == loans[m].bookId)
      ==> l == m
  }

  /** The state every endpoint keeps. */
  ghost predicate Consistent(books: map<int, Book>, loans: map<int, Loan>) {
    LoansReferToBooks(books, loans) && SlotsMatchLoans(books, loans) && OneLoanPerReader(loans)
  }

  /** So no book is ever on loan more than twice. */
  lemma AtMostTwoLoansPerBook(books: map<int, Book>, loans: map<int, Loan>, bookId: int)
    requires Consistent(books, loans)
    ensures |LoansOn(loans, bookId)| <= 2
  {
    if bookId !in books {
      assert forall l :: l !in LoansOn(loans, bookId);
    }
  }

  /** A new loan under a fresh id adds one loan to its own book and none to any other. */
  lemma LoansOnAfterLoan(loans: map<int, Loan>, id: int, loan: Loan, b: int)
    requires id !in loans
    ensures b == loan.bookId ==> |LoansOn(loans[id := loan], b)| == |LoansOn(loans, b)| + 1
    ensures b != loan.bookId ==> LoansOn(loans[id := loan], b) == LoansOn(loans, b)
  {
    if b == loan.bookId {
      assert LoansOn(loans[id := loan], b) == LoansOn(loans, b) + {id};
    }
  }

  lemma LoanKeepsCounts(books: map<int, Book>, loans: map<int, Loan>, id: int, loan: Loan)
    requires SlotsMatchLoans(books, loans)
    requires id !in loans && loan.bookId in books && HasFreeSlot(books[loan.bookId])
    ensures SlotsMatchLoans(books[loan.bookId := TakeSlot(books[loan.bookId])], loans[id := loan])
  {
    var books', loans' := books[loan.bookId := TakeSlot(books[loan.bookId])], loans[id := loan];
    forall b | b in books'
      ensures TakenSlots(books'[b]) == |LoansOn(loans', b)|
    {
      LoansOnAfterLoan(loans, id, loan, b);
    }
  }

  lemma LoanKeepsOneLoanPerReader(loans: map<int, Loan>, id: int, loan: Loan)
    requires OneLoanPerReader(loans)
    requires id !in loans && !HasLoan(loans, loan.userId, loan.bookId)
    ensures OneLoanPerReader(loans[id := loan])
  {
    var loans' := loans[id := loan];
    forall l, m | l in loans' && m in loans' && loans'[l].userId == loans'[m].userId && loans'[l].bookId == loans'[m].bookId
      ensures l == m
    {
      if l != id && m != id {
        assert loans'[l] == loans[l] && loans'[m] == loans[m];
      }
    }
  }

  lemma LoanKeepsConsistent(books: map<int, Book>, loans: map<int, Loan>, id: int, loan: Loan)
    requires Consistent(books, loans)
    requires id !in loans && loan.bookId in books && HasFreeSlot(books[loan.bookId])
    requires !HasLoan(loans, loan.userId, loan.bookId)
    ensures Consistent(books[loan.bookId := TakeSlot(books[loan.bookId])], loans[id := loan])
  {
    LoanKeepsCounts(books, loans, id, loan);
    LoanKeepsOneLoanPerReader(loans, id, loan);
  }

  lemma ReturnKeepsConsistent(books: map<int, Book>, loans: map<int, Loan>, id: int)
    requires Consistent(books, loans)
    requires id in loans
    ensures loans[id].bookId in books
    ensures Consistent(books[loans[id].bookId := FreeSlot(books[loans[id].bookId])], loans - {id})
  {
    var bookId := loans[id].bookId;
    var books', loans' := books[bookId := FreeSlot(books[bookId])], loans - {id};
    forall b | b in books'
      ensures TakenSlots(books'[b]) == |LoansOn(loans', b)|
    {
      if b == bookId {
        assert LoansOn(loans', b) == LoansOn(loans, b) - {id};
        assert id in LoansOn(loans, b);
      } else {
        assert LoansOn(loans', b) == LoansOn(loans, b);
      }
    }
  }

  lemma AddKeepsConsistent(books: map<int, Book>, loans: map<int, Loan>, id: int, book: Book)
    requires Consistent(books, loans)
    requires id !in books && TakenSlots(book) == 0
    ensures Consistent(books[id := book], loans)
  {
    assert forall l :: l !in LoansOn(loans, id);
  }

  lemma ReplaceKeepsConsistent(books: map<int, Book>, loans: map<int, Loan>, id: int, book: Book)
    requires Consistent(books, loans)
    requires id in books && TakenSlots(book) == TakenSlots(books[id])
    ensures Consistent(books[id := book], loans)
  {
  }

  lemma DeleteKeepsConsistent(books: map<int, Book>, loans: map<int, Loan>, id: int)
    requires Consistent(books, loans)
    requires LoansOn(loans, id) == {}
    ensures Consistent(books - {id}, loans)
  {
    forall l | l in loans
      ensures loans[l].bookId in books - {id}
    {
      assert l !in LoansOn(loans, id);
    }
  }

  // ---------------------------------------------------------------------------
  // Adding and editing books

  /** The image path stored for an upload: only an allowed file name is saved and recorded. */
  function StoredImage(upload: Option<string>): (r: Option<string>)
    ensures r.Some? ==> upload.Some? && Uploads.AllowedFile(r.value)
    ensures r.None? <==> upload.None? || !Uploads.AllowedFile(upload.value)
  {
    if upload.Some? && Uploads.AllowedFile(upload.value) then
      Uploads.UploadPathAllowed(upload.value);
      Some(Uploads.UploadPath(upload.value))
    else None
  }

  /** The four NOT NULL columns that the add form must supply. */
  predicate FormComplete(form: BookForm) {
    form.name.Some? && form.author.Some? && form.yearPublished.Some? && form.loanType.Some?
  }

  /** The row `add_book` inserts: the form's fields, the stored image, and both slots available. */
  function NewBook(form: BookForm, upload: Option<string>): (b: Book)
    requires FormComplete(form)
    ensures TakenSlots(b) == 0
  {
    Book(form.name.value, form.author.value, form.yearPublished.value, form.description,
         StoredImage(upload), form.loanType.value, Available, Available)
  }

  function OrElse<T>(o: Option<T>, default: T): T {
    if o.Some? then o.value else default
  }

  /** `edit_book`: each field from the form when sent, else the old value; the image only if a new allowed one is uploaded. */
  function MergeEdit(b: Book, form: BookForm, upload: Option<string>): (r: Book)
    ensures r.status == b.status && r.copyStatus == b.copyStatus
  {
    b.(name := OrElse(form.name, b.name),
       author := OrElse(form.author, b.author),
       yearPublished := OrElse(form.yearPublished, b.yearPublished),
       description := if form.description.Some? then form.description else b.description,
       loanType := OrElse(form.loanType, b.loanType),
       image := if StoredImage(upload).Some? then StoredImage(upload) else b.image)
  }

  /** An edit with no fields and no new image changes nothing; sending the same edit twice is sending it once. */
  lemma MergeEditLaws(b: Book, form: BookForm, upload: Option<string>)
    ensures MergeEdit(b, BookForm(None, None, None, None, None), None) == b
    ensures MergeEdit(MergeEdit(b, form, upload), form, upload) == MergeEdit(b, form, upload)
  {
  }

  /**
   * An edit that sends every field and an accepted image gives the row `add_book`
   * would insert for the same form and upload, with the book's slots kept.
   */
  lemma MergeEditCompleteIsNewBook(b: Book, form: BookForm, upload: Option<string>)
    requires FormComplete(form) && form.description.Some? && StoredImage(upload).Some?
    ensures MergeEdit(b, form, upload) == NewBook(form, upload).(status := b.status, copyStatus := b.copyStatus)
  {
  }

  // ---------------------------------------------------------------------------
  // Row ids

  /** SQLite's choice of a new rowid: one more than the largest in the table, or 1 if it is empty. */
  method NextRowId(keys: set<int>) returns (id: int)
    ensures forall k :: k in keys ==> k < id
    ensures keys == {} ==> id == 1
    ensures keys != {} ==> id - 1 in keys
  {
    id := 1;
    var todo := keys;
    while todo != {}
      invariant todo <= keys
      invariant todo == keys ==> id == 1
      invariant todo != keys ==> id - 1 in keys - todo
      invariant forall k :: k in keys - todo ==> k < id
      decreases todo
    {
      // a ghost witness lets the verifier establish that the `:|` below can pick an element
      ghost var some := Sets.Pick(todo);
      var k :| k in todo;
      if todo == keys || k >= id {
        id := k + 1;
      }
      assert keys - (todo - {k}) == (keys - todo) + {k};
      todo := todo - {k};
    }
    assert keys - todo == keys;
  }

  // ---------------------------------------------------------------------------
  // Listing loans

  /** A `/user/loans` entry: the loan joined with its book, and the late flag. */
  function UserRow(l: int, loan: Loan, book: Book, now: int): LoanRow {
    LoanRow(l, None, loan.bookId, book.name, book.author, book.yearPublished, book.description,
            book.image, loan.loanDate, loan.returnDate, IsLate(loan.returnDate, now))
  }

  /** An `/admin/loans` entry: as above, with the borrower's id. */
  function AdminRow(l: int, loan: Loan, book: Book, now: int): LoanRow {
    LoanRow(l, Some(loan.userId), loan.bookId, book.name, book.author, book.yearPublished,
            book.description, book.image, loan.loanDate, loan.returnDate, IsLate(loan.returnDate, now))
  }

  /** The loan ids of a listing. */
  function RowIds(rows: seq<LoanRow>): set<int> {
    set i | 0 <= i < |rows| :: rows[i].loanId
  }

  predicate DistinctIds(rows: seq<LoanRow>) {
    forall i, j :: 0 <= i < j < |rows| ==> rows[i].loanId != rows[j].loanId
  }

  lemma AppendRow(rows: seq<LoanRow>, row: LoanRow)
    ensures RowIds(rows + [row]) == RowIds(rows) + {row.loanId}
    ensures DistinctIds(rows) && row.loanId !in RowIds(rows) ==> DistinctIds(rows + [row])
  {
    var rows' := rows + [row];
    assert forall i :: 0 <= i < |rows| ==> rows'[i] == rows[i];
    assert rows'[|rows|] == row;
    if DistinctIds(rows) && row.loanId !in RowIds(rows) {
      forall i, j | 0 <= i < j < |rows'|
        ensures rows'[i].loanId != rows'[j].loanId
      {
        if j == |rows| {
          assert rows[i].loanId in RowIds(rows);
        }
      }
    }
  }

  /** A listing that names every loan once carries as many rows as loans. */
  lemma {:induction false} DistinctRowCount(rows: seq<LoanRow>)
    requires DistinctIds(rows)
    ensures |RowIds(rows)| == |rows|
  {
    if |rows| > 0 {
      var last := |rows| - 1;
      DistinctRowCount(rows[..last]);
      assert RowIds(rows) == RowIds(rows[..last]) + {rows[last].loanId};
      assert rows[last].loanId !in RowIds(rows[..last]);
    }
  }

  // ---------------------------------------------------------------------------
  // The database

  class Database {
    var books: map<int, Book>
    var loans: map<int, Loan>
    var users: map<int, Accounts.User>

    constructor ()
      ensures books == map[] && loans == map[] && users == map[]
      ensures Consistent(books, loans)
    {
      books, loans, users := map[], map[], map[];
    }

    /** `/signup`: validate the JSON body and store the new user under a fresh id. */
    method Signup(data: map<string, string>) returns (r: Accounts.SignupResult, userId: int)
      modifies this`users
      ensures r == Accounts.ValidateSignup(data)
      ensures r.Rejected? ==> users == old(users)
      ensures r.Accepted? ==> userId !in old(users) && users == old(users)[userId := r.user]
    {
      r := Accounts.ValidateSignup(data);
      userId := NextRowId(users.Keys);
      if r.Accepted? {
        users := users[userId := r.user];
      }
    }

    /** `/books/add`: admins only; a form missing a NOT NULL field fails at commit. */
    method AddBook(account: string, form: BookForm, upload: Option<string>) returns (outcome: Outcome, bookId: int)
      modifies this`books
      ensures !Accounts.IsAdmin(account) ==> outcome == PermissionDenied
      ensures Accounts.IsAdmin(account) && !FormComplete(form) ==> outcome == ServerError
      ensures outcome == Created <==> Accounts.IsAdmin(account) && FormComplete(form)
      ensures outcome != Created ==> books == old(books)
      ensures outcome == Created ==> bookId !in old(books) && books == old(books)[bookId := NewBook(form, upload)]
      ensures old(Consistent(books, loans)) ==> Consistent(books, loans)
    {
      bookId := NextRowId(books.Keys);
      if !Accounts.IsAdmin(account) {
        outcome := PermissionDenied;
      } else if !FormComplete(form) {
        outcome := ServerError;
      } else {
        if Consistent(books, loans) {
          AddKeepsConsistent(books, loans, bookId, NewBook(form, upload));
        }
        books := books[bookId := NewBook(form, upload)];
        outcome := Created;
      }
    }

    /** `/books/edit/<id>`: admins only; merge the form into the existing row. */
    method EditBook(account: string, bookId: int, form: BookForm, upload: Option<string>) returns (outcome: Outcome)
      modifies this`books
      ensures !Accounts.IsAdmin(account) ==> outcome == PermissionDenied
      ensures Accounts.IsAdmin(account) && bookId !in old(books) ==> outcome == BookMissing
      ensures outcome == Success <==> Accounts.IsAdmin(account) && bookId in old(books)
      ensures outcome != Success ==> books == old(books)
      ensures outcome == Success ==> books == old(books)[bookId := MergeEdit(old(books)[bookId], form, upload)]
      ensures old(Consistent(books, loans)) ==> Consistent(books, loans)
    {
      if !Accounts.IsAdmin(account) {
        outcome := PermissionDenied;
      } else if bookId !in books {
        outcome := BookMissing;
      } else {
        var edited := MergeEdit(books[bookId], form, upload);
        if Consistent(books, loans) {
          ReplaceKeepsConsistent(books, loans, bookId, edited);
        }
        books := books[bookId := edited];
        outcome := Success;
      }
    }

    /**
     * `/books/delete/<id>`: admins only. Without a delete cascade the ORM sets the
     * book id of the book's loans to NULL, which their NOT NULL column refuses, so
     * deleting a book that is on loan fails at commit.
     */
    method DeleteBook(account: string, bookId: int) returns (outcome: Outcome)
      modifies this`books
      ensures !Accounts.IsAdmin(account) ==> outcome == PermissionDenied
      ensures Accounts.IsAdmin(account) && bookId !in old(books) ==> outcome == BookMissing
      ensures Accounts.IsAdmin(account) && bookId in old(books) && LoansOn(loans, bookId) != {} ==> outcome == ServerError
      ensures outcome == Success <==> Accounts.IsAdmin(account) && bookId in old(books) && LoansOn(loans, bookId) == {}
      ensures outcome != Success ==> books == old(books)
      ensures outcome == Success ==> books == old(books) - {bookId}
      ensures old(Consistent(books, loans)) ==> Consistent(books, loans)
    {
      if !Accounts.IsAdmin(account) {
        outcome := PermissionDenied;
      } else if bookId !in books {
        outcome := BookMissing;
      } else if exists l :: l in loans && loans[l].bookId == bookId {
        var l :| l in loans && loans[l].bookId == bookId;
        assert l in LoansOn(loans, bookId);
        outcome := ServerError;
      } else {
        if Consistent(books, loans) {
          DeleteKeepsConsistent(books, loans, bookId);
        }
        books := books - {bookId};
        outcome := Success;
      }
    }

    /**
     * `/loan/<book_id>`. Three guards, then one slot is taken and a loan due after the
     * loan type's number of days is recorded. With an unknown loan type the slot
     * change is never committed, so nothing changes.
     */
    method LoanBook(userId: int, bookId: int, now: int) returns (outcome: Outcome, loanId: int)
      modifies this`books, this`loans
      ensures HasLoan(old(loans), userId, bookId) ==> outcome == AlreadyLoaned
      ensures !HasLoan(old(loans), userId, bookId) && bookId !in old(books) ==> outcome == BookMissing
      ensures !HasLoan(old(loans), userId, bookId) && bookId in old(books) && !HasFreeSlot(old(books)[bookId])
              ==> outcome == NoCopyAvailable
      ensures (!HasLoan(old(loans), userId, bookId) && bookId in old(books) && HasFreeSlot(old(books)[bookId])
               && LoanDays(old(books)[bookId].loanType).None?) ==> outcome == InvalidLoanType
      ensures outcome == Success <==>
        !HasLoan(old(loans), userId, bookId) && bookId in old(books) && HasFreeSlot(old(books)[bookId])
        && LoanDays(old(books)[bookId].loanType).Some?
      ensures outcome != Success ==> books == old(books) && loans == old(loans)
      ensures outcome == Success ==>
        && books == old(books)[bookId := TakeSlot(old(books)[bookId])]
        && loanId !in old(loans)
        && loans == old(loans)[loanId :=
             Loan(userId, bookId, now, Some(DueDate(now, LoanDays(old(books)[bookId].loanType).value)))]
      ensures old(Consistent(books, loans)) ==> Consistent(books, loans)
    {
      loanId := NextRowId(loans.Keys);
      if exists l :: l in loans && loans[l].userId == userId && loans[l].bookId == bookId {
        outcome := AlreadyLoaned;
        return;
      }
      if bookId !in books {
        outcome := BookMissing;
        return;
      }
      var book := books[bookId];
      if book.status != Available && book.copyStatus != Available {
        outcome := NoCopyAvailable;
        return;
      }
      var days := LoanDays(book.loanType);
      if days.None? {
        outcome := InvalidLoanType;
        return;
      }
      var loan := Loan(userId, bookId, now, Some(DueDate(now, days.value)));
      if Consistent(books, loans) {
        LoanKeepsConsistent(books, loans, loanId, loan);
      }
      books := books[bookId := TakeSlot(book)];
      loans := loans[loanId := loan];
      outcome := Success;
    }

    /**
     * `/return/<loan_id>`: the borrower, or an account spelled exactly 'admin', deletes
     * the loan and frees a slot of its book, the copy first.
     */
    method ReturnBook(loanId: int, callerId: int, callerAccount: string) returns (outcome: Outcome)
      modifies this`books, this`loans
      ensures loanId !in old(loans) ==> outcome == LoanMissing
      ensures loanId in old(loans) && old(loans)[loanId].userId != callerId && !Accounts.IsExactAdmin(callerAccount)
              ==> outcome == NotAuthorized
      ensures outcome == Success <==>
        loanId in old(loans) && (old(loans)[loanId].userId == callerId || Accounts.IsExactAdmin(callerAccount))
        && old(loans)[loanId].bookId in old(books)
      ensures (loanId in old(loans) && (old(loans)[loanId].userId == callerId || Accounts.IsExactAdmin(callerAccount))
               && old(loans)[loanId].bookId !in old(books)) ==> outcome == BookMissing
      ensures outcome != Success ==> books == old(books) && loans == old(loans)
      ensures outcome == Success ==>
        var bookId := old(loans)[loanId].bookId;
        && loans == old(loans) - {loanId}
        && books == old(books)[bookId := FreeSlot(old(books)[bookId])]
      ensures old(Consistent(books, loans)) ==> Consistent(books, loans)
    {
      if loanId !in loans {
        outcome := LoanMissing;
        return;
      }
      var loan := loans[loanId];
      if loan.userId != callerId && !Accounts.IsExactAdmin(callerAccount) {
        outcome := NotAuthorized;
        return;
      }
      if loan.bookId !in books {
        // the deletion of the loan is not committed
        outcome := BookMissing;
        return;
      }
      if Consistent(books, loans) {
        ReturnKeepsConsistent(books, loans, loanId);
      }
      books := books[loan.bookId := FreeSlot(books[loan.bookId])];
      loans := loans - {loanId};
      outcome := Success;
    }

    /** The loans `/user/loans` lists for `userId`: theirs, joined with an existing book. */
    ghost predicate OwnListed(userId: int, l: int)
      reads this
    {
      l in loans && loans[l].userId == userId && loans[l].bookId in books
    }

    /** `/user/loans`: every loan of the caller whose book exists, once each, with its late flag. */
    method UserLoans(userId: int, now: int) returns (rows: seq<LoanRow>)
      ensures DistinctIds(rows)
      ensures RowIds(rows) == set l | l in loans && OwnListed(userId, l)
      ensures forall i :: 0 <= i < |rows| ==>
                (rows[i].loanId in loans && loans[rows[i].loanId].bookId in books
                 && rows[i] == UserRow(rows[i].loanId, loans[rows[i].loanId], books[loans[rows[i].loanId].bookId], now))
      ensures forall i :: 0 <= i < |rows| ==> rows[i].late == IsLate(rows[i].returnDate, now)
    {
      rows := [];
      var todo := loans.Keys;
      while todo != {}
        invariant todo <= loans.Keys
        invariant DistinctIds(rows)
        invariant RowIds(rows) == set l | l in loans.Keys - todo && OwnListed(userId, l)
        invariant forall i :: 0 <= i < |rows| ==>
                    (rows[i].loanId in loans && loans[rows[i].loanId].bookId in books
                     && rows[i] == UserRow(rows[i].loanId, loans[rows[i].loanId], books[loans[rows[i].loanId].bookId], now))
        decreases todo
      {
        // a ghost witness lets the verifier establish that the `:|` below can pick an element
        ghost var some := Sets.Pick(todo);
        var l :| l in todo;
        assert loans.Keys - (todo - {l}) == (loans.Keys - todo) + {l};
        todo := todo - {l};
        var loan := loans[l];
        if loan.userId == userId && loan.bookId in books {
          AppendRow(rows, UserRow(l, loan, books[loan.bookId], now));
          rows := rows + [UserRow(l, loan, books[loan.bookId], now)];
        }
      }
    }

    /** A loan whose `/admin/loans` entry cannot be built: the borrower's row or the due date is missing. */
    ghost predicate Unlistable(l: int)
      reads this
    {
      l in loans && loans[l].bookId in books && (loans[l].userId !in users || loans[l].returnDate.None?)
    }

    /** `/admin/loans`: admins only; every loan whose book exists, or 500 if one of them cannot be listed. */
    method AdminLoans(account: string, now: int) returns (listing: Listing)
      ensures listing == Refused(PermissionDenied) <==> !Accounts.IsAdmin(account)
      ensures Accounts.IsAdmin(account) ==>
        (listing == Refused(ServerError) <==> exists l :: l in loans && Unlistable(l))
      ensures listing.Refused? ==> listing.outcome in {PermissionDenied, ServerError}
      ensures listing.Listed? ==>
        && Accounts.IsAdmin(account)
        && DistinctIds(listing.rows)
        && RowIds(listing.rows) == set l | l in loans && loans[l].bookId in books
        && forall i :: 0 <= i < |listing.rows| ==>
             var l := listing.rows[i].loanId;
             l in loans && loans[l].bookId in books && loans[l].userId in users
             && listing.rows[i] == AdminRow(l, loans[l], books[loans[l].bookId], now)
    {
      if !Accounts.IsAdmin(account) {
        return Refused(PermissionDenied);
      }
      var rows := [];
      var todo := loans.Keys;
      while todo != {}
        invariant todo <= loans.Keys
        invariant forall l :: l in loans.Keys - todo ==> !Unlistable(l)
        invariant DistinctIds(rows)
        invariant RowIds(rows) == set l | l in loans.Keys - todo && loans[l].bookId in books
        invariant forall i :: 0 <= i < |rows| ==>
                    var l := rows[i].loanId;
                    l in loans && loans[l].bookId in books && loans[l].userId in users
                    && rows[i] == AdminRow(l, loans[l], books[loans[l].bookId], now)
        decreases todo
      {
        // a ghost witness lets the verifier establish that the `:|` below can pick an element
        ghost var some := Sets.Pick(todo);
        var l :| l in todo;
        assert loans.Keys - (todo - {l}) == (loans.Keys - todo) + {l};
        todo := todo - {l};
        var loan := loans[l];
        if loan.bookId in books {
          if loan.userId !in users || loan.returnDate.None? {
            assert Unlistable(l);
            return Refused(ServerError);
          }
          AppendRow(rows, AdminRow(l, loan, books[loan.bookId], now));
          rows := rows + [AdminRow(l, loan, books[loan.bookId], now)];
        }
      }
      listing := Listed(rows);
    }
  }

  /**
   * Loaning a book whose two slots are free and then returning that loan, as its
   * borrower, leaves both tables as they were.
   */
  method LoanThenReturn(db: Database, userId: int, account: string, bookId: int, now: int)
    requires bookId in db.books && db.books[bookId].status == Available && db.books[bookId].copyStatus == Available
    requires LoanDays(db.books[bookId].loanType).Some?
    requires !HasLoan(db.loans, userId, bookId)
    modifies db
    ensures db.books == old(db.books) && db.loans == old(db.loans)
  {
    var loaned, loanId := db.LoanBook(userId, bookId, now);
    assert loaned == Success;
    var returned := db.ReturnBook(loanId, userId, account);
    assert returned == Success;
    FreeAfterTake(old(db.books)[bookId]);
  }
}
