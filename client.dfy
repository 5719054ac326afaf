/**
 * The decisions of frontend/script.js that do not depend on the DOM or the
 * network: the text search and the status facet over `booksList`, the loan
 * duration label, the buttons and image of a book card, what the signup form
 * sends, and which loan list the loaned-books page shows. `booksList` is passed
 * in as a parameter; the functions never change it.
 */
module Client {
  import opened Wrappers
  import opened Text
  import Accounts
  import Library
  import Uploads

  /** The JavaScript value of a book's `late` field: absent, a boolean, or a string. */
  datatype LateValue = Undefined | Flag(b: bool) | Str(s: string)

  /** An entry of `booksList` with the fields the page reads; `status` is absent in loan entries. */
  datatype BookView = BookView(
    id: int,
    name: string,
    description: string,
    image: Option<string>,
    status: Option<string>,
    late: LateValue)

  /** JavaScript truthiness of `late`, as in `book.late ? 'Late for Return' : ''`. */
  predicate LateShown(late: LateValue) {
    match late
    case Undefined => false
    case Flag(b) => b
    case Str(s) => s != ""
  }

  // ---------------------------------------------------------------------------
  // Order-preserving selection (`Array.prototype.filter`)

  /** `r` can be obtained from `s` by deleting elements. */
  predicate IsSubsequence<T(==)>(r: seq<T>, s: seq<T>)
    decreases |s|
  {
    if |r| == 0 then true
    else if |s| == 0 then false
    else if r[0] == s[0] then IsSubsequence(r[1..], s[1..])
    else IsSubsequence(r, s[1..])
  }

  /** The elements of `s` that satisfy `p`, in their order, each as often as in `s`. */
  function Keep<T(==,!new)>(s: seq<T>, p: T -> bool): (r: seq<T>)
    ensures forall x :: x in r <==> x in s && p(x)
    ensures forall x :: multiset(r)[x] == if p(x) then multiset(s)[x] else 0
    ensures IsSubsequence(r, s)
    ensures |r| <= |s|
    decreases |s|
  {
    if |s| == 0 then []
    else
      var rest := Keep(s[1..], p);
      assert s == [s[0]] + s[1..];
      assert multiset(s) == multiset{s[0]} + multiset(s[1..]);
      if p(s[0]) then
        assert ([s[0]] + rest)[1..] == rest;
        [s[0]] + rest
      else
        rest
  }

  /** Keeping with a predicate every element satisfies keeps everything. */
  lemma {:induction false} KeepAll<T(!new)>(s: seq<T>, p: T -> bool)
    requires forall x :: x in s ==> p(x)
    ensures Keep(s, p) == s
    decreases |s|
  {
    if |s| > 0 {
      KeepAll(s[1..], p);
    }
  }

  /** Keeping with a predicate no element satisfies keeps nothing. */
  lemma KeepNone<T(!new)>(s: seq<T>, p: T -> bool)
    requires forall x :: x in s ==> !p(x)
    ensures Keep(s, p) == []
  {
  }

  /** Predicates that agree on every element keep the same elements. */
  lemma {:induction false} KeepCongruent<T(!new)>(s: seq<T>, p: T -> bool, q: T -> bool)
    requires forall x :: x in s ==> p(x) == q(x)
    ensures Keep(s, p) == Keep(s, q)
    decreases |s|
  {
    if |s| > 0 {
      KeepCongruent(s[1..], p, q);
    }
  }

  // ---------------------------------------------------------------------------
  // Text search (`filterBooks`)

  /** A book matches when its lower-cased name or description contains the lower-cased query. */
  predicate Matches(b: BookView, query: string) {
    Contains(Lower(b.name), Lower(query)) || Contains(Lower(b.description), Lower(query))
  }

  function FilterBooks(books: seq<BookView>, query: string): seq<BookView> {
    Keep(books, (b: BookView) => Matches(b, query))
  }

  /**
   * The search returns, in their order and as often as they occur, exactly the books
   * in whose lower-cased name or description the lower-cased query occurs.
   */
  lemma FilterBooksSpec(books: seq<BookView>, query: string)
    ensures forall b :: b in FilterBooks(books, query) <==>
      b in books && ((exists i :: OccursAt(Lower(b.name), Lower(query), i))
                     || (exists i :: OccursAt(Lower(b.description), Lower(query), i)))
    ensures IsSubsequence(FilterBooks(books, query), books)
  {
    forall b | b in books
      ensures Matches(b, query) <==>
        (exists i :: OccursAt(Lower(b.name), Lower(query), i))
        || (exists i :: OccursAt(Lower(b.description), Lower(query), i))
    {
      ContainsIff(Lower(b.name), Lower(query));
      ContainsIff(Lower(b.description), Lower(query));
    }
  }

  /** An empty query shows the whole list. */
  lemma FilterBooksEmptyQuery(books: seq<BookView>)
    ensures FilterBooks(books, "") == books
  {
    KeepAll(books, (b: BookView) => Matches(b, ""));
  }

  /** The search box lower-cases its text before calling the filter, which changes nothing. */
  lemma FilterBooksLowered(books: seq<BookView>, query: string)
    ensures FilterBooks(books, Lower(query)) == FilterBooks(books, query)
  {
    LowerIdempotent(query);
    KeepCongruent(books, (b: BookView) => Matches(b, Lower(query)), (b: BookView) => Matches(b, query));
  }

  // ---------------------------------------------------------------------------
  // Status facet (`applyBookFilter`)

  /** The 'available' and 'taken' cases and the default of the switch, which both versions share. */
  function StatusFacet(books: seq<BookView>, filterValue: string): seq<BookView> {
    if filterValue == "available" || filterValue == "taken" then
      Keep(books, (b: BookView) => b.status == Some(filterValue))
    else books
  }

  /** The facet as written: the 'true' case compares `late` with the string "true". */
  function ApplyBookFilterAsWritten(books: seq<BookView>, filterValue: string): seq<BookView> {
    if filterValue == "true" then Keep(books, (b: BookView) => b.late == Str("true"))
    else StatusFacet(books, filterValue)
  }

  /** The facet with 'true' keeping the books the card marks 'Late for Return'. */
  function ApplyBookFilter(books: seq<BookView>, filterValue: string): seq<BookView> {
    if filterValue == "true" then Keep(books, (b: BookView) => LateShown(b.late))
    else StatusFacet(books, filterValue)
  }

  /** 'all' and every value the switch does not name show the stored list unchanged. */
  lemma FacetShowsAll(books: seq<BookView>, filterValue: string)
    requires filterValue != "available" && filterValue != "taken" && filterValue != "true"
    ensures ApplyBookFilter(books, filterValue) == books
    ensures ApplyBookFilterAsWritten(books, filterValue) == books
  {
  }

  /** 'available' and 'taken' keep, in order, exactly the books whose status is that word. */
  lemma FacetByStatus(books: seq<BookView>, filterValue: string)
    requires filterValue == "available" || filterValue == "taken"
    ensures forall b :: b in ApplyBookFilter(books, filterValue) <==> b in books && b.status == Some(filterValue)
    ensures IsSubsequence(ApplyBookFilter(books, filterValue), books)
    ensures ApplyBookFilterAsWritten(books, filterValue) == ApplyBookFilter(books, filterValue)
  {
  }

  /** As written, the late facet shows nothing for entries whose `late` is a boolean, as the backend sends it. */
  lemma LateFacetAsWrittenEmpty(books: seq<BookView>)
    requires forall b :: b in books ==> !b.late.Str?
    ensures ApplyBookFilterAsWritten(books, "true") == []
  {
    KeepNone(books, (b: BookView) => b.late == Str("true"));
  }

  /** One overdue loan entry: the card says 'Late for Return', the facet as written drops it. */
  lemma LateFacetCounterexample()
    ensures var overdue := BookView(7, "Dune", "", None, None, Flag(true));
      && LateShown(overdue.late)
      && ApplyBookFilterAsWritten([overdue], "true") == []
      && ApplyBookFilter([overdue], "true") == [overdue]
  {
    var overdue := BookView(7, "Dune", "", None, None, Flag(true));
    LateFacetAsWrittenEmpty([overdue]);
  }

  /** Corrected, the late facet keeps, in order, exactly the entries whose card says 'Late for Return'. */
  lemma LateFacetKeepsLate(books: seq<BookView>)
    ensures forall b :: b in ApplyBookFilter(books, "true") <==>
      b in books && CreateBookCard(b, false, true).lateText == "Late for Return"
    ensures IsSubsequence(ApplyBookFilter(books, "true"), books)
  {
  }

  // ---------------------------------------------------------------------------
  // Loan duration label (`viewBookDetails`)

  function LoanDurationLabel(loanType: int): string {
    if loanType == 1 then "Maximum Loan Duration: 10 days"
    else if loanType == 2 then "Maximum Loan Duration: 5 days"
    else if loanType == 3 then "Maximum Loan Duration: 2 days"
    else "Maximum Loan Duration: Unknown"
  }

  /** The decimal digits of `n`. */
  function Decimal(n: nat): string
    decreases n
  {
    var digit := ['0' + (n % 10) as char];
    if n < 10 then digit else Decimal(n / 10) + digit
  }

  /** The label states the number of days in the backend's loan table, and 'Unknown' for types it lacks. */
  lemma LabelAgreesWithLoanTable(loanType: int)
    ensures Library.LoanDays(loanType).Some? ==>
      LoanDurationLabel(loanType) == "Maximum Loan Duration: " + Decimal(Library.LoanDays(loanType).value) + " days"
    ensures Library.LoanDays(loanType).None? ==> LoanDurationLabel(loanType) == "Maximum Loan Duration: Unknown"
  {
    assert Decimal(1) == "1" && Decimal(10) == "10";
  }

  // ---------------------------------------------------------------------------
  // Book cards (`createBookCard`, `renderBooks`, `renderLoanedBooks`)

  /** The button of a card and the book id its click handler is given. */
  datatype Action = OpenEdit(bookId: int) | DeleteBook(bookId: int) | ReturnBook(bookId: int) | ViewDetails(bookId: int)

  datatype Card = Card(bookId: int, imageSrc: string, lateText: string, actions: seq<Action>)

  const PlaceholderImage: string := "../backend/uploads/placeholder-image.jpg"

  /** The backend's image path when `book.image` is truthy, else the placeholder. */
  function ImageSource(image: Option<string>): string {
    if image.Some? && image.value != "" then "../backend/" + image.value else PlaceholderImage
  }

  /** The buttons, in priority order: Edit and Delete on the manage page, else Return on the loaned page, else Loan. */
  function CardActions(id: int, isManagePage: bool, isLoanedBook: bool): seq<Action> {
    if isManagePage then [OpenEdit(id), DeleteBook(id)]
    else if isLoanedBook then [ReturnBook(id)]
    else [ViewDetails(id)]
  }

  function CreateBookCard(b: BookView, isManagePage: bool, isLoanedBook: bool): Card {
    Card(b.id, ImageSource(b.image), if LateShown(b.late) then "Late for Return" else "",
         CardActions(b.id, isManagePage, isLoanedBook))
  }

  /**
   * Every button of a card acts on the card's own book; Edit and Delete appear together
   * and only on the manage page; Return only off it on the loaned page; Loan elsewhere.
   */
  lemma CardActionsSpec(b: BookView, isManagePage: bool, isLoanedBook: bool)
    ensures var actions := CreateBookCard(b, isManagePage, isLoanedBook).actions;
      && (forall a :: a in actions ==> a.bookId == b.id)
      && (OpenEdit(b.id) in actions <==> isManagePage)
      && (DeleteBook(b.id) in actions <==> isManagePage)
      && (ReturnBook(b.id) in actions <==> !isManagePage && isLoanedBook)
      && (ViewDetails(b.id) in actions <==> !isManagePage && !isLoanedBook)
  {
  }

  /**
   * A card shows the placeholder exactly when the book has no image path, an empty one,
   * or the stored path of the placeholder itself.
   */
  lemma ImageFallback(image: Option<string>)
    ensures ImageSource(image) == PlaceholderImage <==>
      image.None? || image.value == "" || image.value == "uploads/placeholder-image.jpg"
  {
    if image.Some? && image.value != "" {
      var src := ImageSource(image);
      assert src[|"../backend/"|..] == image.value;
      assert PlaceholderImage[|"../backend/"|..] == "uploads/placeholder-image.jpg";
    }
  }

  /** An image the backend stored is shown from the backend's upload folder. */
  lemma StoredImageShown(filename: string)
    requires Uploads.AllowedFile(filename)
    ensures Library.StoredImage(Some(filename)) == Some(Uploads.UploadPath(filename))
    ensures ImageSource(Library.StoredImage(Some(filename))) == "../backend/uploads/" + filename
  {
    var path := Uploads.UploadPath(filename);
    assert path == "uploads/" + filename;
    assert "../backend/" + path == "../backend/uploads/" + filename;
  }

  /** `renderBooks`: one card per book, in order; the page decides the buttons. */
  function RenderBooks(books: seq<BookView>, pathname: string): (cards: seq<Card>)
    ensures |cards| == |books|
    ensures forall i :: 0 <= i < |books| ==> cards[i].bookId == books[i].id
  {
    var isManagePage := Contains(pathname, "manage_book.html");
    var isLoanedBook := Contains(pathname, "loaned_books.html");
    seq(|books|, i requires 0 <= i < |books| => CreateBookCard(books[i], isManagePage, isLoanedBook))
  }

  /** `renderLoanedBooks`: one card per loan entry, each with a Return button for its book. */
  function RenderLoanedBooks(entries: seq<BookView>): (cards: seq<Card>)
    ensures |cards| == |entries|
    ensures forall i :: 0 <= i < |entries| ==> cards[i].actions == [ReturnBook(entries[i].id)]
  {
    seq(|entries|, i requires 0 <= i < |entries| => CreateBookCard(entries[i], false, true))
  }

  // ---------------------------------------------------------------------------
  // Signup form (`submitSignupForm`) and the loaned-books page (`fetchUserLoanedBooks`)

  /**
   * The JSON body the signup form posts, or `None` when no request is made. Only the
   * account value exactly 'admin' prompts; `promptAnswer` is `None` when the prompt is cancelled.
   */
  function SignupPayload(form: map<string, string>, promptAnswer: Option<string>): (r: Option<map<string, string>>)
    ensures r.None? <==> Accounts.Get(form, "account") == Some("admin") && promptAnswer.None?
    ensures r.Some? ==> form.Keys <= r.value.Keys
    ensures r.Some? ==> forall k :: k in form && k != "admin_pass" ==> r.value[k] == form[k]
    ensures r.Some? && Accounts.Get(form, "account") == Some("admin") ==>
      promptAnswer.Some? && r.value == form["admin_pass" := promptAnswer.value]
    ensures r.Some? && Accounts.Get(form, "account") != Some("admin") ==> r.value == form
  {
    if "account" in form && form["account"] == "admin" then
      if promptAnswer.None? then None else Some(form["admin_pass" := promptAnswer.value])
    else Some(form)
  }

  /** Any account other than exactly 'admin' is sent as typed, whatever the prompt would have said. */
  lemma NonAdminSignupUnchanged(form: map<string, string>, promptAnswer: Option<string>)
    requires Accounts.Get(form, "account") != Some("admin")
    ensures SignupPayload(form, promptAnswer) == Some(form)
  {
  }

  /** A complete admin signup whose prompt is answered with the admin password is accepted by the backend. */
  lemma AdminSignupAccepted(form: map<string, string>)
    requires Accounts.Get(form, "account") == Some("admin")
    requires Accounts.Present(form, "email") && Accounts.Present(form, "password")
    requires "username" in form && "city" in form && "age" in form
    ensures SignupPayload(form, Some(Accounts.AdminPassword)).Some?
    ensures Accounts.ValidateSignup(SignupPayload(form, Some(Accounts.AdminPassword)).value).Accepted?
  {
    var payload := form["admin_pass" := Accounts.AdminPassword];
    assert Accounts.Get(payload, "admin_pass") == Some(Accounts.AdminPassword);
    assert Accounts.Present(payload, "email") && Accounts.Present(payload, "password");
  }

  /**
   * An account typed 'Admin' is not prompted, so no admin password is sent, yet the
   * backend lower-cases it and rejects the signup for a wrong admin password.
   */
  lemma CapitalisedAdminSignupRejected(form: map<string, string>, promptAnswer: Option<string>)
    requires Accounts.Get(form, "account") == Some("Admin") && "admin_pass" !in form
    requires Accounts.Present(form, "email") && Accounts.Present(form, "password")
    ensures SignupPayload(form, promptAnswer) == Some(form)
    ensures Accounts.ValidateSignup(form) == Accounts.Rejected(Accounts.AdminPasswordIncorrect)
  {
    Accounts.AdminGatesDiffer();
  }

  /** The loaned-books page shows the all-loans list for an 'admin' account in any case, else the caller's own. */
  function LoanedBooksShown(account: string, ownLoans: seq<BookView>, allLoans: seq<BookView>): seq<BookView> {
    if Lower(account) == "admin" then allLoans else ownLoans
  }

  /** The page asks for all loans exactly when the backend's admin gate will grant them. */
  lemma LoanedBooksFanOut(account: string, ownLoans: seq<BookView>, allLoans: seq<BookView>)
    ensures Accounts.IsAdmin(account) ==> LoanedBooksShown(account, ownLoans, allLoans) == allLoans
    ensures !Accounts.IsAdmin(account) ==> LoanedBooksShown(account, ownLoans, allLoans) == ownLoans
  {
  }
}
