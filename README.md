# Library management: loans, catalogue and accounts in Dafny

This project models the core of a small library-management web application.
The backend is an Express API over a document database; the frontend is a React client.
The model covers:

- **Catalogue** (`book_model.dfy`): the Book schema's constraints, defaults and trimming. It includes `Book.create` and the validated partial update `findByIdAndUpdate`.
- **Loan records** (`borrowing_model.dfy`): the Borrowing schema, the defaults of a new loan, the due-date validator, and how a return closes a loan (returned or overdue).
- **Loan listings** (`loan_queries.dfy`): the caller's loans, all loans, and overdue loans. Each is a filter over the loan store followed by a sort.
- **Book and loan handlers** (`book_controller.dfy`): the eight book and loan handlers, as methods of a `Library` class.
  - The class owns the two stores, each a map from id to document.
  - Every method keeps a store invariant: every book is valid, with 0 <= borrowedCount <= stock (stock and borrowedCount are whole numbers here; Findings, row 5, shows how a fractional stock breaks this); a book's open loans never outnumber its borrowedCount; every loan is well formed; an open loan's book exists; no borrower holds two open loans of one book.
  - Each method's contract gives the guards in source order, with their status codes, and the exact new state.
- **Accounts** (`auth_controller.dfy`): register, verifyOtp and login over an `Accounts` user store. Its invariant: no address ever has more than 5 unverified registrations.
- **Guards** (`auth_middleware.dfy`): isAuthenticated, which sets `req.user`, and authorizeRoles.
- **Client session** (`auth_slice.dfy`): the client's auth slice, with its five reducers and the token and user mirrored in browser storage. A reload restores the session.

Document ids are natural numbers handed out in increasing order, so insertion order is id order.
Times are integers (milliseconds).
A request field the client did not send is `None`.

## Model

| member | source | states |
|---|---|---|
| BookModel.Trim | backend/models/bookModel.js:4-27 | the `trim` schema option: the result is no longer than the input and has no white space at either end |
| BookModel.TrimmedIsFixedPoint | backend/models/bookModel.js:4-27 | text is trimmed exactly when trim leaves it unchanged |
| BookModel.TrimIsSlice | backend/models/bookModel.js:4-27 | trim keeps the middle slice of the text; everything removed before and after it is white space |
| BookModel.TrimIdempotent | backend/models/bookModel.js:4-27 | trimming stored text again changes nothing |
| BookModel.ValidBook | backend/models/bookModel.js:3-63 | a book that passes every path's validator (trimmed text within its length bounds, stock >= 0, 0 <= borrowedCount <= stock, year within bounds) has between 0 and stock copies on the shelf |
| BookModel.CreateViolations | backend/models/bookModel.js:3-63 | the paths create reports are exactly those whose validator fails on the request (required, length, bounds, borrowedCount <= stock); a negative stock always fails borrowedCount too |
| BookModel.Create | backend/models/bookModel.js:3-66 | Book.create: fails exactly when some path fails its validator, and the error names every failing path (CreateViolations). On success the book is valid; title, author and genre are the trimmed request values; price, publicationYear, description and addedBy are the request's; stock and borrowedCount default to 0; imageUrl defaults to the placeholder cover |
| BookModel.CreateReportsEachPath | backend/models/bookModel.js:3-63 | each failing path (required, min/max length, stock and year bounds, borrowedCount <= stock) makes create fail and appears in its error |
| BookModel.CreateAcceptsValid | backend/models/bookModel.js:3-66 | round trip: creating from a valid book's own fields gives back exactly that book |
| BookModel.PatchViolations | backend/controllers/bookController.js:72-76 | runValidators on an update checks only the supplied paths: the error names exactly the supplied paths that fail, never stock, borrowedCount or a path left out of the update |
| BookModel.Patch | backend/controllers/bookController.js:66-76 | findByIdAndUpdate with runValidators, over every field except stock and borrowedCount. It fails exactly when a supplied path fails, naming those paths (PatchViolations). On success: stock and borrowedCount are unchanged; title, author and genre are the trimmed request value when sent and the stored one otherwise; description, price, publicationYear, imageUrl and addedBy are the request's when sent and the stored ones otherwise. Resending a valid book's own fields succeeds |
| BookModel.PatchKeepsValid | backend/models/bookModel.js:3-63 | an accepted update keeps a valid book valid |
| BorrowingModel.ParseStatus | backend/models/borrowingModel.js:33-38 | the status enum accepts exactly "borrowed", "returned" and "overdue" |
| BorrowingModel.StatusRoundTrip | backend/models/borrowingModel.js:33-38 | every status survives the trip to its stored name and back |
| BorrowingModel.NewBorrowing | backend/models/borrowingModel.js:14-42 | a new loan has borrowDate = the creation time, no actual return date, status borrowed and fineAmount 0 |
| BorrowingModel.DueDateOk | backend/models/borrowingModel.js:19-28 | the due-date validator passes at time now only for a due date strictly after now; a record that still passes closes as returned, never overdue |
| BorrowingModel.ClosingStatus | backend/controllers/bookController.js:198-210 | a return writes overdue exactly when the return time is strictly after the due date, and returned otherwise |
| BorrowingModel.Close | backend/controllers/bookController.js:198-210 | a return sets actualReturnDate to the return time and the closing status, and changes no other field |
| BorrowingModel.SaveReturnAsWritten | backend/controllers/bookController.js:198-212 | as written: saving the closed loan succeeds exactly when the due date is still in the future |
| BorrowingModel.OverdueNeverSavedAsWritten | backend/controllers/bookController.js:202-212 | as written: a return on or after the due date is never saved, so overdue is never stored |
| BorrowingModel.LifecycleWellFormed | backend/models/borrowingModel.js:14-42 | a loan created with a future due date is well formed; closing an open well-formed loan keeps it well formed and no longer open |
| LoanQueries.SortBy | backend/controllers/bookController.js:229-231 | the sort: every id once, ordered by the key, ties by id |
| LoanQueries.Listing | backend/controllers/bookController.js:229-246 | a find-then-sort: exactly the records the filter keeps, each once, in key order |
| LoanQueries.MyBorrowedBooks | backend/controllers/bookController.js:227-238 | getMyBorrowedBooks: exactly the user's loans of every status, newest borrowDate first |
| LoanQueries.AllBorrowings | backend/controllers/bookController.js:241-253 | getAllBorrowings: every loan exactly once, newest borrowDate first |
| LoanQueries.OverdueBooks | backend/controllers/bookController.js:256-285 | getOverdueBooks: exactly the open loans due strictly before today, earliest due date first |
| LoanQueries.IsOverdue | backend/controllers/bookController.js:263-266 | the overdue filter (open, due strictly before today) holds exactly for an open loan that a return today would mark overdue |
| LoanQueries.OverdueMatchesReturn | backend/controllers/bookController.js:202-210 | an open loan is listed as overdue exactly when returning it at that moment would mark it overdue |
| BookController.LendCheck | backend/controllers/bookController.js:122-146 | the checks after the book lookup, in source order: no copy on the shelf gives NoCopiesLeft; otherwise an unparsable date gives BadDateFormat; otherwise a date not strictly in the future gives DueDateNotFuture; otherwise an open loan of the book by the borrower gives AlreadyBorrowed; the borrow passes exactly when none applies; every failure is a 400 |
| BookController.HasActiveLoan | backend/controllers/bookController.js:138-142 | findOne({user, book, status: 'borrowed'}) finds a record exactly when one of the book's open loans belongs to the user |
| BookController.Returnable | backend/controllers/bookController.js:181-185 | findOne({_id, user, status: 'borrowed'}): a returnable loan is one of its book's open loans and, scoped to a user, an open loan of that book the user holds |
| BookController.Error.Code | backend/controllers/bookController.js:17-405 | the status each error answers with: 404 exactly for the lookups that find nothing (book, user, loan, the loan's book), 500 exactly for a validation error, 400 for the rest |
| BookController.NoCopiesOutNoOpenLoans | backend/controllers/bookController.js:94-97 | under the invariant, a book with borrowedCount 0 has no open loans, which is what deleteBook's guard relies on |
| BookController.BorrowCountAsWritten | backend/controllers/bookController.js:122-160 | as written, over the schema's Number type: a copy may go out exactly when borrowedCount < stock, and the count saved is exactly borrowedCount + 1; only the count before the borrow is known to be below stock |
| BookController.FractionalStockOverBorrowedAsWritten | backend/controllers/bookController.js:122-160 | as written: a book with stock 1.5 (accepted by create) lets two borrows through and ends with borrowedCount 2 > stock |
| BookController.WholeStockBorrowWithinStock | backend/controllers/bookController.js:122-160 | with whole-number stock and borrowedCount, the guard as written is exactly the NoCopiesLeft check, and every borrow it admits keeps borrowedCount <= stock and the book valid |
| BookController.LendKeepsInvariant | backend/controllers/bookController.js:148-158 | a borrow that passes its checks (one new open loan, borrowedCount + 1) keeps the store invariant, for whole-number stock (Findings, row 5) |
| BookController.CloseKeepsInvariant | backend/controllers/bookController.js:197-216 | a return (loan closed, borrowedCount - 1) keeps the store invariant, and the count it decrements is at least 1 |
| BookController.RemoveLoanKeepsInvariant | backend/controllers/bookController.js:401-414 | deleting any loan record keeps the store invariant; no count is corrected, so deleting an open loan leaves its copy counted out |
| BookController.AddBookKeepsInvariant | backend/controllers/bookController.js:19-20 | adding a valid book under a fresh id keeps the store invariant |
| BookController.ReplaceBookKeepsInvariant | backend/controllers/bookController.js:72-78 | replacing a book by a valid one with the same borrowedCount keeps the store invariant |
| BookController.RemoveBookKeepsInvariant | backend/controllers/bookController.js:94-99 | removing a book with no copies out keeps the store invariant |
| BookController.UpdateAsWritten | backend/controllers/bookController.js:68-78 | as written, for a valid book past the guard of lines 68-70 (a sent stock is not below borrowedCount): a failing patch stores nothing and fails with its paths; otherwise the patch is stored, and then with no stock sent save fails on both stock and borrowedCount, while with a stock sent the stored and answered book is the patch with that stock |
| BookController.UpdateWithoutStockAsWritten | backend/controllers/bookController.js:66-78 | as written: renaming a valid book without sending stock answers with a validation error on stock and borrowedCount, yet the store has changed and holds the new trimmed title |
| BookController.Library.CreateBook | backend/controllers/bookController.js:8-29 | borrowedCount > 0 in the request gives 400; otherwise Create with borrowedCount 0 and addedBy = caller; success stores the book under a fresh id with 201; failure gives the validation error and changes nothing |
| BookController.Library.UpdateBook | backend/controllers/bookController.js:59-84 | 404 for an unknown book; 400 when the request's stock is below borrowedCount; otherwise the Patch result with the request's stock (or the stored one when none is sent); with a stock sent, the stored book is exactly what the code as written stores; borrowedCount is never written; a rejected update changes nothing; the invariant is kept |
| BookController.Library.DeleteBook | backend/controllers/bookController.js:87-105 | 404 for an unknown book, 400 while borrowedCount > 0, otherwise the book is removed; the invariant is kept |
| BookController.Library.Lend | backend/controllers/bookController.js:122-166 | the part both borrow handlers share: a LendCheck failure changes nothing; otherwise exactly one new open loan under a fresh id, which passes the due-date validator at the time of the borrow, the book's borrowedCount + 1, and the remaining copies on the shelf in the answer |
| BookController.Library.BorrowBook | backend/controllers/bookController.js:108-168 | missing bookId or returnDate gives 400, then unknown book 404, then the LendCheck failures; a success lends to the caller exactly as Lend says; any failure changes nothing |
| BookController.Library.BorrowBookAdmin | backend/controllers/bookController.js:287-351 | as BorrowBook, with userId also required and an unknown user (404) checked after the unknown book; the loan is the named user's |
| BookController.Library.Settle | backend/controllers/bookController.js:171-224 | the part both return handlers share: missing id gives 400; no open loan with that id in scope gives 404; a missing book gives 404; success closes the loan and decrements borrowedCount by exactly 1 |
| BookController.Library.ReturnBook | backend/controllers/bookController.js:171-224 | only the caller's own open loan can be returned; it is closed at `now` (overdue exactly when `now` is after the due date), borrowedCount falls by exactly 1, and the loan is no longer open, so a second return fails with 404; a failure changes nothing |
| BookController.Library.ReturnBookAdmin | backend/controllers/bookController.js:353-399 | as ReturnBook for any user's open loan |
| BookController.Library.DeleteLoan | backend/controllers/bookController.js:401-414 | deleteLeon: 404 for an unknown loan; otherwise the record is removed whatever its status, and no book is touched |
| AuthController.FindOne | backend/controllers/authController.js:110-113 | findOne({email}) as written: the first record with that address, verified or not; none exactly when there is no record |
| AuthController.LoginRecord | backend/controllers/authController.js:110-118 | the record login checks: it is verified exactly when the address has a verified account |
| AuthController.HasVerifiedIffSome | backend/controllers/authController.js:20 | findOne({email, accountVerified: true}) finds a record exactly when the address has a verified record |
| AuthController.UnverifiedSplit | backend/controllers/authController.js:24 | find({email, accountVerified: false}) returns the address's records other than the verified ones, disjoint from them |
| AuthController.OtpCandidatesUnverified | backend/controllers/authController.js:64-68 | the records verifyOtp's findOne can match are exactly the address's unverified records holding the code sent |
| AuthController.AuthError.Code | backend/controllers/authController.js:14-123 | the status each error answers with: 403 exactly for an unverified login, 500 exactly for the password-length error and a failed mail, 400 for the rest |
| AuthController.LookupsAgreeOnSingleRecord | backend/controllers/authController.js:110-113 | when an address has at most one record, the as-written and corrected lookups agree |
| AuthController.LoginLookupMissesVerified | backend/controllers/authController.js:110-118 | a store with two records for one address, the second verified: findOne({email}) returns the unverified one, so login answers 403 |
| AuthController.DuplicateRegistrationScenario | backend/controllers/authController.js:10-94 | that store is reached through the handlers: two registrations for one address, then verification of the second code |
| AuthController.RegisterKeepsBound | backend/controllers/authController.js:24-34 | a registration admitted with fewer than 5 unverified records keeps every address at 5 or fewer |
| AuthController.VerifyOrRemoveKeepsBound | backend/controllers/authController.js:80-87 | verifying or deleting a record keeps every address at 5 or fewer unverified records |
| AuthController.NewAccount | backend/controllers/authController.js:31-34 | the new record is unverified, holds the hash, the role "user", the code and its expiry |
| AuthController.Accounts.Register | backend/controllers/authController.js:10-49 | guards in order: missing field 400, bad address 400, verified account exists 400, 5 or more unverified records 400, password length outside 8..16; an admitted request stores one unverified record with a fresh code and answers 200; when the mail fails the record is deleted again (500) and the store is as before; the attempt bound is kept |
| AuthController.Accounts.VerifyOtp | backend/controllers/authController.js:52-94 | missing field 400, bad address 400, no unverified record of that address with that code 400; a missing or past expiry deletes the record (400); otherwise the record becomes verified and a token is issued for it |
| AuthController.Accounts.Login | backend/controllers/authController.js:97-130 | missing field 400, bad address 400; an unknown address and a wrong password give the same 400; an unverified account gets 403 before its password is compared; success only for a verified account whose password matches |
| AuthMiddleware.FindById | backend/middlewares/authMiddleware.js:15 | findById gives the account with that id, or null when none exists |
| AuthMiddleware.Authenticate | backend/middlewares/authMiddleware.js:6-18 | no token cookie gives 401 with req.user untouched; the request proceeds exactly when a token is present and verifies; it then leaves req.user = findById(decoded id), possibly null |
| AuthMiddleware.IsAuthenticated | backend/middlewares/authMiddleware.js:6-18 | the outcome and the req.user left behind are Authenticate's |
| AuthMiddleware.AuthorizeRolesAsWritten | backend/middlewares/authMiddleware.js:20-28 | as written: a present user proceeds exactly when the role is listed and otherwise gets 403; a null user throws |
| AuthMiddleware.AuthorizeRoles | backend/middlewares/authMiddleware.js:20-28 | a request proceeds exactly when a user is present and its role is listed; everything else is 403 |
| AuthMiddleware.AuthorizeRolesAgreeOnUsers | backend/middlewares/authMiddleware.js:22-24 | the two versions differ only when req.user is null |
| AuthMiddleware.DeletedAccountTokenThrows | backend/middlewares/authMiddleware.js:13-24 | a genuine token for a deleted account passes isAuthenticated with a null user, and the role check as written then throws instead of answering 403 |
| AuthMiddleware.RoleGateAdmitsExactly | backend/routes/authRouter.js:21-23 | isAuthenticated then authorizeRoles admits exactly a present, verifiable token naming an existing account with a listed role |
| AuthSlice.Restore | frontend/src/redux/slices/authSlice.js:4-10 | the initial state: the stored user, the stored token unless it is empty, isAuthenticated exactly when a token is kept |
| AuthSlice.RestoreMirrors | frontend/src/redux/slices/authSlice.js:4-10 | the restored state is consistent and mirrors the storage it came from |
| AuthSlice.ReloadRestoresSession | frontend/src/redux/slices/authSlice.js:4-55 | reloading from storage that mirrors a consistent session gives that session back, except that an empty token comes back signed out |
| AuthSlice.Merge | frontend/src/redux/slices/authSlice.js:52-55 | the merge keeps the keys of both, the payload wins where both have a key, and the old value is kept elsewhere |
| AuthSlice.SelectUserRole | frontend/src/redux/slices/authSlice.js:63 | the user's role when there is a user with a role, and none otherwise |
| AuthSlice.RoleAfterMerge | frontend/src/redux/slices/authSlice.js:52-63 | after updateUser the selected role is the payload's if it has one, and the previous one otherwise |
| AuthSlice.AuthState.constructor | frontend/src/redux/slices/authSlice.js:4-10 | initialState is Restore of storage, not loading, no error |
| AuthSlice.AuthState.LoginStart | frontend/src/redux/slices/authSlice.js:18-21 | sets loading, clears the error, changes nothing else |
| AuthSlice.AuthState.LoginSuccess | frontend/src/redux/slices/authSlice.js:22-30 | the payload's user and token become the session, which is signed in, and are persisted; the error is left as it was |
| AuthSlice.AuthState.LoginFailure | frontend/src/redux/slices/authSlice.js:31-40 | records the error, signs out and clears storage |
| AuthSlice.AuthState.Logout | frontend/src/redux/slices/authSlice.js:41-50 | signs out, clears error and loading, and clears storage |
| AuthSlice.AuthState.UpdateUser | frontend/src/redux/slices/authSlice.js:52-55 | merges the payload over the user and persists it; the token and the flags are untouched |

## Left out

- Concurrency: every handler runs to completion before the next one starts. The interleavings of the awaits, and the races they allow between the availability check and the count update, are not modelled.
- `book.save({ validateBeforeSave: false })` after a borrow or a return is modelled as storing the new count. Full-document validation on save is modelled only where it changes the outcome: SaveReturnAsWritten and UpdateAsWritten.
- Error status codes: errorMiddlewares.js is not part of this model.
  - Validation errors from findByIdAndUpdate are reported as `Invalid` with code 500, as createBook's catch does.
  - The password-length error of register, raised without a code, is taken as 500.
  - Errors thrown by jwt.verify are `Throw`.
- userModel.js is not part of this model:
  - the role a new account receives is taken to be "user";
  - generateVerificationCode is replaced by the `code` and `expire` parameters;
  - password hashing and comparison are the `hash` and `matches` parameters.
- The e-mail pattern, jwt.verify, the mailer, sendToken's cookie and the clock are parameters (`isEmail`, `verify`, `mailSent`, `now`). Date parsing is the `DueDate` request field.
- A malformed ObjectId (CastError) cannot occur: ids are typed naturals.
- Populated documents in the listings (book, user name and e-mail) are left out. Each listing returns the loan records with their ids. The `count` field and the two messages of getOverdueBooks (an empty list and a non-empty list carry different messages) are not modelled.
- Timestamps (createdAt, updatedAt) are not modelled. The book's price is kept as a number, with no constraint beyond being present.
- Lengths are counted in Unicode characters; JavaScript counts UTF-16 code units, which differ outside the Basic Multilingual Plane.
- getAllBooks, getBookDetails, logout and getUser only read or echo data and are not modelled. getAllUsers, deleteUser and updateUser are routed in authRouter.js, but their code is not part of this model.
- A null `req.user` reaching createBook, borrowBook or returnBook (a token for a deleted account) throws a TypeError in the source. The model always passes a caller id.
- The JSON serialisation of the stored user is taken as exact. Storing an undefined user (which would make the next reload throw) is not modelled.
- BookController.Library.Settle, BookController.Library.ReturnBook and BookController.Library.ReturnBookAdmin: model the corrected save of a returned loan (Findings, row 3), so late returns succeed and are marked overdue.
- BookController.Library.UpdateBook: models the corrected handling of an absent stock (Findings, row 2).
- BookController.Library.UpdateBook: request fields are typed scalars. A JSON body can also carry operator keys such as `$set` or `$inc` in `otherUpdateFields`, which would write stock or borrowedCount past the guard (backend/controllers/bookController.js:66, 72); this is not modelled.
- AuthController.Accounts.VerifyOtp: request fields are typed scalars. An `otp` sent as a query-operator object such as `{"$ne": null}` would let findOne match any pending code of the address (backend/controllers/authController.js:55, 64-68); this is not modelled.
- LoanQueries.SortBy: records with equal sort keys are ordered by id. The database leaves the order of ties unspecified, so the model fixes one of the orders the source allows.
- BookModel.Book: stock, borrowedCount and publicationYear are integers. The schema types them as Number (backend/models/bookModel.js:32-54), which also admits fractions such as a stock of 1.5; only the borrow guard's behaviour on fractions is modelled, by BookController.BorrowCountAsWritten (Findings, row 5).
- BookController.LendKeepsInvariant: proves borrowedCount <= stock for whole-number stock only; with a fractional stock the guard as written lets borrowedCount pass the stock (Findings, row 5).
- AuthController.Accounts.Login: checks the corrected record LoginRecord rather than findOne({email}) (Findings, row 4).

## Findings

| source | as written | input that shows it | evidently intended | confidence | as-written member | corrected member |
|---|---|---|---|---|---|---|
| backend/middlewares/authMiddleware.js:22-24 | when `req.user` is null, building the 403 message reads `req.user.role` and throws | a genuine token whose account has been deleted, on an admin route (AuthMiddleware.DeletedAccountTokenThrows) | answer 403 to a request with no user | high, not executed | AuthMiddleware.AuthorizeRolesAsWritten | AuthMiddleware.AuthorizeRoles |
| backend/controllers/bookController.js:68-78 | the guard treats `stock` as optional, but line 77 assigns it unconditionally; with no stock sent, save validates every path of the loaded document and fails on the required stock and on borrowedCount's `value <= this.stock`, after findByIdAndUpdate has already stored the other fields | an update of a valid book that sends only a new title (BookController.UpdateWithoutStockAsWritten) | leave the stored stock alone when none is sent, and change nothing on failure | high, not executed | BookController.UpdateAsWritten | BookController.Library.UpdateBook |
| backend/controllers/bookController.js:202-212 | `borrowing.save()` validates every path of the loaded document, including the due-date check `returnDate > now` (backend/models/borrowingModel.js:22-27); a return on or after the due date fails to save, so overdue is never stored and the copy is never returned | a loan due at 100 returned at 105 (BorrowingModel.OverdueNeverSavedAsWritten) | the due-date check applies at creation only; a late return is saved as overdue | medium (depends on the database library validating the unmodified paths of a loaded document on save), not executed | BorrowingModel.SaveReturnAsWritten | BorrowingModel.Close |
| backend/controllers/authController.js:110-118 | login takes `findOne({ email })`, the first record with that address, verified or not | register twice with one address, verify the second code, log in: the first (unverified) record is found and login answers 403, while register now refuses the address (AuthController.LoginLookupMissesVerified, AuthController.DuplicateRegistrationScenario) | check the address's verified account when it has one | medium (depends on natural order being insertion order), not executed | AuthController.FindOne | AuthController.LoginRecord |
| backend/controllers/bookController.js:122-160 | the guard `stock - borrowedCount <= 0` admits a borrow whenever `stock - borrowedCount` is positive, even when it is below 1, and the save that raises borrowedCount by 1 skips the `borrowedCount <= stock` validator; the schema types stock as Number, so a fractional stock passes create and update | a book created with stock 1.5, borrowed by two different users: borrowedCount ends at 2 > 1.5 (BookController.FractionalStockOverBorrowedAsWritten) | stock is a whole number of copies, so a borrow that passes the guard never takes borrowedCount above stock, as the comment after the save says | medium (needs a request that sends a fractional stock; the client checks only for a number >= 0), not executed | BookController.BorrowCountAsWritten | BookController.WholeStockBorrowWithinStock |
