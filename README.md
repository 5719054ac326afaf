# LMS — a Dafny model of the library's loan logic

LMS is a small library management system. A Flask backend (backend/app.py) keeps three SQLite tables: users, books and loans. Every book has two availability slots: `status` for the original and `copyStatus` for a second copy. A loan takes one slot and a return frees one. Administrators, whose account lower-cases to `admin`, add, edit and delete books. A browser script (frontend/script.js) lists the books, searches and filters them, builds a card with buttons for each book, and posts the signup form.

This project models the following in Dafny:

- **Backend** (modules `Uploads`, `Accounts`, `Library`):
  - the upload-name filter and the signup checks;
  - the two admin gates: lower-cased, and the exact `admin` test of `return_book`;
  - the `edit_book` merge and the loan-type table;
  - the `late` flag;
  - a `Database` class whose methods are the endpoints that change or list the tables.
- **Browser** (module `Client`):
  - the text search and the status facet;
  - the loan-duration label;
  - the card's buttons and image;
  - the signup payload and the choice of loan list.

The tables are maps from row id to row. New ids are chosen as SQLite does (largest id plus one). The caller's id, their account string and the current time (an integer number of seconds) are parameters. Every state-changing method states its whole new state for each outcome. Each one also keeps the invariant `Consistent`:

- every loan names an existing book;
- every book has as many taken slots as outstanding loans;
- nobody holds two loans on one book.

Where the code's behaviour is not what a reader of the route descriptions would expect, the model follows the code:

- Deleting a book that is on loan fails with 500. There is no delete cascade, so the ORM sets the loans' NOT NULL `book_id` to NULL and the commit is refused.
- A loan of a book with an unknown loan type changes nothing. The slot flip at app.py:376-379 is never committed.
- `return_book` admits an administrator only when the account is exactly `admin`. The other gates lower-case the account first.

Files: `wrappers.dfy` (Option), `sets.dfy` (picking an element of a set), `text.dfy` (ASCII lower-casing, substring search, last index), `uploads.dfy`, `accounts.dfy`, `library.dfy`, `client.dfy`.

## Model

| member | source | states |
|---|---|---|
| Text.ContainsIff | frontend/script.js:350-353 | The substring test used for `includes` holds exactly when the query occurs at some position of the text |
| Text.LowerIdempotent | frontend/script.js:667-668 | Lower-casing an already lower-cased string changes nothing |
| Text.LastIndexOf | backend/app.py:72 | The result is the last position of the character, and is absent exactly when the character does not occur (the split point of `rsplit('.', 1)`) |
| Uploads.Extension | backend/app.py:72 | There is an extension exactly when the name holds a dot, and it contains no dot |
| Uploads.AllowedFileSpec | backend/app.py:71-72 | A name is accepted exactly when some dot has no dot after it and the text after that dot, lower-cased, is png, jpg, jpeg or gif |
| Uploads.NoDotRejected | backend/app.py:72 | A name without a dot is rejected |
| Uploads.UploadPathAllowed | backend/app.py:261-263 | A name that is accepted is still accepted once it is placed under the upload folder |
| Uploads.AllowedFileExamples | backend/app.py:72 | `cover.PNG` is accepted; `photo.png.exe` and `notes` are not |
| Accounts.IsAdminSpec | backend/app.py:248 | The lower-casing admin gate admits exactly the five-letter spellings of `admin` in any mix of cases |
| Accounts.AdminGatesDiffer | backend/app.py:413 | Every account that passes the exact gate of `return_book` passes the lower-casing gate; `Admin` passes only the latter |
| Accounts.ValidateSignup | backend/app.py:117-140 | A missing or empty email or password gives `Invalid input`. A lower-cased `admin` account without the admin password is refused. A user is accepted exactly when both checks pass and the NOT NULL fields are present, and it carries the submitted email, account and name |
| Accounts.SignupStatus | backend/app.py:117-140 | A signup answers 201 exactly when the user is stored, 400 exactly for the missing-credentials and admin-password refusals, and 500 exactly when storing fails |
| Library.HttpStatus | backend/app.py:356-398 | Only a success answers 2xx and only a failed commit or crash answers 5xx; every refusal is a 4xx |
| Library.LoanDays | backend/app.py:382-385 | The loan-type table has an entry, always positive, exactly for types 1, 2 and 3 |
| Library.LoanDaysDecreasing | backend/app.py:382 | A lower loan type allows a strictly longer loan |
| Library.LateExactlyAfterDue | backend/app.py:387 | A loan due `days` days after it was taken is late exactly when more than that many days have passed |
| Library.LateIsMonotone | backend/app.py:499-502 | A late loan stays late as time passes; a loan with no return date is never late |
| Library.TakenSlots | backend/app.py:371 | A book has at most two taken slots, and none exactly when both slots are available |
| Library.TakeSlot | backend/app.py:375-379 | Taking a slot adds one taken slot and changes nothing else. The original is taken when it is free, leaving the copy as it was; otherwise the copy is taken |
| Library.FreeSlot | backend/app.py:423-426 | Freeing a slot removes one taken slot, copy first, and changes nothing else; a book with no taken slot is left unchanged |
| Library.FreeAfterTake | backend/app.py:375-426 | Taking then freeing restores the number of taken slots. The book itself is restored except when only the original was free; then the slots end up swapped |
| Library.AtMostTwoLoansPerBook | backend/app.py:371-372 | In a consistent state no book has more than two outstanding loans |
| Library.LoanKeepsConsistent | backend/app.py:362-393 | Adding a loan under a fresh id, for a book with a free slot and a reader without a loan on it, while taking a slot, keeps the tables consistent |
| Library.ReturnKeepsConsistent | backend/app.py:416-426 | Deleting a loan and freeing a slot of its book keeps the tables consistent |
| Library.AddKeepsConsistent | backend/app.py:266-281 | Inserting a book with no taken slot under a fresh id keeps the tables consistent |
| Library.DeleteKeepsConsistent | backend/app.py:343-346 | Deleting a book that has no loans keeps the tables consistent |
| Library.StoredImage | backend/app.py:261-265 | An image path is recorded exactly when an upload is present and its name is accepted. With the file name kept as sent, the recorded path is itself accepted |
| Library.NewBook | backend/app.py:266-275 | A new book starts with both slots available |
| Library.MergeEdit | backend/app.py:307-318 | An edit never touches the two slots |
| Library.MergeEditLaws | backend/app.py:307-318 | An edit with no fields and no upload leaves the book as it was; applying the same edit twice equals applying it once |
| Library.MergeEditCompleteIsNewBook | backend/app.py:307-318 | An edit that sends every field and an accepted image makes the book the row adding that form and image would insert, keeping the book's slots |
| Library.NextRowId | backend/app.py:392-393 | A new row id is larger than every existing id. It is 1 for an empty table, and otherwise one more than the largest id |
| Library.AppendRow | backend/app.py:446-460 | Appending a row adds its loan id to the listed ids, and keeps the ids distinct when the id was new |
| Library.DistinctRowCount | backend/app.py:446-460 | A listing whose loan ids are distinct has one row per listed loan |
| Library.Database.constructor | backend/app.py:36-68 | The tables start empty and consistent |
| Library.Database.Signup | backend/app.py:104-140 | The outcome is the signup validation. A rejected signup stores nothing; an accepted one stores exactly the new user under a fresh id |
| Library.Database.AddBook | backend/app.py:242-287 | Non-admins get 403. A form missing a NOT NULL field gets 500. Otherwise exactly one new book with both slots available is stored under a fresh id. Failures change nothing, and consistency is kept |
| Library.Database.EditBook | backend/app.py:292-327 | Non-admins get 403 and an unknown book 404. Otherwise only that book changes, to the merge of its old fields with the form. Consistency is kept |
| Library.Database.DeleteBook | backend/app.py:331-352 | Non-admins get 403 and an unknown book 404. A book with outstanding loans gives 500. Otherwise exactly that book is removed. Consistency is kept |
| Library.Database.LoanBook | backend/app.py:356-398 | The guards run in order: an existing loan on the book gives 400, an unknown book 404, no free slot 400, an unknown loan type 400. Each of these changes nothing. Otherwise one slot is taken and exactly one loan, due `now` plus the type's days, is added under a fresh id. Consistency is kept |
| Library.Database.ReturnBook | backend/app.py:403-434 | An unknown loan gives 404. A caller who neither owns the loan nor is exactly `admin` gets 403. A missing book gives 404. Each of these changes nothing. Otherwise exactly that loan is removed and its book frees one slot, copy first. Consistency is kept |
| Library.Database.UserLoans | backend/app.py:438-462 | The listing holds each of the caller's loans whose book exists exactly once, joined with its book. Each row's late flag is the due date lying before now |
| Library.Database.AdminLoans | backend/app.py:466-505 | The answer is 403 exactly for non-admins. For an admin, the result is 500 exactly when some listed loan lacks its borrower or its due date. Otherwise it lists every loan whose book exists exactly once, with the borrower, joined with its book |
| Library.LoanThenReturn | backend/app.py:356-434 | Loaning a book whose slots are both free, then returning that loan as its borrower, leaves both tables exactly as they were |
| Client.Keep | frontend/script.js:350 | Filtering keeps, in order, exactly the elements that satisfy the predicate, each as often as it occurs |
| Client.KeepAll | frontend/script.js:350 | Filtering with a predicate every element satisfies returns the list unchanged |
| Client.KeepCongruent | frontend/script.js:350 | Filtering with two predicates that agree on every element gives the same result |
| Client.FilterBooksSpec | frontend/script.js:347-355 | The search returns, in order, exactly the books in whose lower-cased name or description the lower-cased query occurs |
| Client.FilterBooksEmptyQuery | frontend/script.js:347-355 | An empty query returns the whole list |
| Client.FilterBooksLowered | frontend/script.js:666-670 | Lower-casing the query before the search, as the input handler does, gives the same result |
| Client.FacetShowsAll | frontend/script.js:596-616 | `all` and every unlisted value return the stored list unchanged |
| Client.FacetByStatus | frontend/script.js:601-608 | `available` and `taken` return, in order, exactly the books whose status is that word |
| Client.LateFacetAsWrittenEmpty | frontend/script.js:609-612 | As written, the late facet returns nothing for entries whose `late` is a boolean, which is what the backend sends |
| Client.LateFacetCounterexample | frontend/script.js:609-612 | An overdue loan entry whose card reads `Late for Return` is dropped by the facet as written and kept by the corrected one |
| Client.LateFacetKeepsLate | frontend/script.js:609-612 | The corrected late facet returns, in order, exactly the entries whose card reads `Late for Return` |
| Client.LabelAgreesWithLoanTable | frontend/script.js:385-399 | The label names the number of days in the backend's loan-type table, and `Unknown` for a type the table lacks |
| Client.CardActionsSpec | frontend/script.js:153-165 | Every button acts on the card's own book. Edit and Delete appear exactly on the manage page. Return appears exactly off it on the loaned page. Loan appears otherwise |
| Client.ImageFallback | frontend/script.js:143 | The placeholder is shown exactly when the image path is absent, empty, or the placeholder's own stored path |
| Client.StoredImageShown | frontend/script.js:143 | An image the backend accepted is shown from the backend's upload folder under the name it was sent with |
| Client.RenderBooks | frontend/script.js:105-119 | There is one card per book, in order, each for that book |
| Client.RenderLoanedBooks | frontend/script.js:449-463 | There is one card per loan entry, in order, each with only a Return button for its book |
| Client.SignupPayload | frontend/script.js:62-68 | No request is sent exactly when the account is exactly `admin` and the prompt was cancelled. A sent payload keeps every form field with its value. For `admin` it is the form with only `admin_pass` set to the prompt's answer; any other account's form is sent unchanged |
| Client.NonAdminSignupUnchanged | frontend/script.js:62-68 | Any account other than exactly `admin` is sent unchanged |
| Client.AdminSignupAccepted | frontend/script.js:62-68 | A complete `admin` signup whose prompt is answered with the admin password is accepted by the backend's validation |
| Client.CapitalisedAdminSignupRejected | frontend/script.js:62-68 | An account typed `Admin` gets no prompt, so no admin password is sent, and the backend rejects it for an incorrect admin password |
| Client.LoanedBooksFanOut | frontend/script.js:481-492 | The loaned-books page shows the all-loans list exactly for the accounts the backend's admin gate admits, and the caller's own loans otherwise |

## Left out

- Lower-casing covers ASCII letters only. Python's `str.lower` and JavaScript's `toLowerCase` also fold other Unicode letters.
- `secure_filename` is taken to return the name unchanged, and the saving of the uploaded file is not modelled (filesystem I/O).
- Library.StoredImage: the recorded path is `uploads/` plus the name as sent, so "the recorded path is itself accepted" and Client.StoredImageShown hold only for names `secure_filename` leaves alone. The real function drops leading dots and underscores and every non-ASCII character. An upload named `.png` is accepted yet recorded as `uploads/png`, which `allowed_file` would reject.
- JWT issuing and checking, and bcrypt hashing, are left out. The caller's id and account are parameters, and the stored user has no password hash.
- HTTP, Flask routing, CORS, the DOM, modals, `localStorage`, `prompt`/`confirm` and timers are left out. The prompt's answer is a parameter.
- Library.Database.AddBook: the only commit failure modelled is a missing NOT NULL field. Type errors in the form values and database faults are not modelled.
- Library.Database.DeleteBook: the commit failure for a book on loan is modelled; other database faults are not.
- Library.Database.LoanBook, Library.Database.ReturnBook, Library.Database.EditBook: commit failures (500) are not modelled, because they depend on the database, not on the tables' contents.
- Library.NextRowId: SQLite's fallback to a random unused id, once the largest id reaches 2^63-1, is not modelled.
- Library.Database.UserLoans, Library.Database.AdminLoans: the order of the rows is the loop order over the loan ids, not the database's order. The contract says which rows appear, not in what order.
- Library.Database.UserLoans: the `account` value returned next to the loans is not modelled.
- Time is an integer of seconds. The mix of `utcnow` (due dates) and `now` (lateness) and the textual date formatting are not modelled.
- The login and user-info endpoints are left out: they rest on bcrypt and JWT, which are left out above, and login has no admin gate.
- The single-book endpoint (`get_book`) is left out. It uses the lower-cased admin test only to choose which loan it reports, and it computes its own `late` flag at backend/app.py:238.
- The customers endpoints are left out: they are read and delete passthroughs behind the lower-cased admin gate.
- JSON values are strings in the signup body and integers for loan types and years. Client.FilterBooks: a `null` description, which makes the search throw, is not modelled, because descriptions are strings in the model.
- Races between overlapping requests and the reassignment of the globals `booksList` and `currentBookId` are not modelled (event-loop concurrency).

## Findings

| source | as written | input that shows it | evidently intended | confidence | as-written member | corrected member |
|---|---|---|---|---|---|---|
| frontend/script.js:609-612 | The `true` facet keeps entries whose `late` equals the string `'true'`, but the backend sends `late` as a boolean (backend/app.py:459, 500-502) | a loan entry with `late: true`, shown as `Late for Return` on its card, is dropped, so the facet is always empty on real data | keep the entries whose card reads `Late for Return`, that is, whose `late` is truthy | high, not executed | Client.ApplyBookFilterAsWritten (shown by Client.LateFacetCounterexample) | Client.ApplyBookFilter (proved by Client.LateFacetKeepsLate) |
