# Library ledger — a Dafny model

This project models the core of a small library-management web application. The core is a
**loan-and-inventory ledger** (`LibraryProvider`) that holds the list of books and the list of loans
and changes them through six operations:

- `addBook`, `updateBook` and `deleteBook` edit the catalog;
- `issueBook` lends a copy;
- `updateLoanFine` assesses a fine;
- `returnBook` records a return.

The model also covers the rules the four screens use to read and drive that ledger:

- the borrower's loan list, with its ₹50-per-day display fine;
- the borrower's catalog, with its "already borrowed / not available" gate on the borrow button;
- the administrator's loan table, with its overdue-day count and its map of draft fines;
- the administrator's add/edit book form.

Modules, one per source file plus two shared ones:

| module | file | models |
|---|---|---|
| `Types` | `types.dfy` | `src/types.ts`: `Book`, `Loan`, `User`, the status and role enumerations |
| `Sequences` | `sequences.dfy` | the array methods the ledger uses: `filter`, `find`, the replacing `map` |
| `Time` | `time.dfy` | the length of a day and of a loan period, and `Math.ceil` of a division |
| `LibraryContext` | `library_context.dfy` | the ledger, as class `Library` over `seq<Book>` and `seq<Loan>`, and its availability bookkeeping |
| `UserLoans` | `user_loans.dfy` | the borrower's loan list |
| `BookCatalog` | `book_catalog.dfy` | the borrower's catalog |
| `LoanManagement` | `loan_management.dfy` | the administrator's loan table, and the draft fines as class `FineDrafts` |
| `BookManagement` | `book_management.dfy` | the book form, as class `BookForm` |

Representation choices:

- Timestamps are integer milliseconds. The caller passes the current time `now` in.
- Fines and quantities are integers.
- A stored optional fine is an `Option<int>`. JavaScript's `x || y` on numbers is modelled by `IsSet`, which holds for a value that is present and not zero.
- Fresh ids are supplied by the caller and must not already be in use. `Library.Valid()` states that book ids are unique and loan ids are unique, and every method keeps it.
- Each ledger operation is one atomic step over the state at the time of the call.

The ledger's methods state their whole new state through pure functions of the old state
(`ReplaceBook`, `RemoveBook`, `AssessFine`, `MarkReturned`, `NewLoan`, `Restocked`). The lemmas
are stated about those functions. The main ones are:

- availability conservation: for every book id, copies on the shelf plus loans not yet returned is unchanged by an issue, a return, and a fine assessed on a loan that is not returned;
- what a later lookup of the loan finds after a fine or a return;
- that only the catalog's button keeps a borrower to one active loan per book.

## Where the code and the design description differ

The model follows the code. A design description of the system promises more in five places:

- **No duplicate-loan check in `issueBook`.** The description has the ledger refuse a second active loan of the same book to the same borrower (`AlreadyBorrowed`). The code has no such check (`src/context/LibraryContext.tsx:67-82`). Only the catalog's disabled button keeps it (`src/components/user/BookCatalog.tsx:13-15,35`). `IssueAllowsSecondActiveLoan` shows, for any ledger, that issuing a book again to a borrower who holds an active loan of it breaks the property, and `IssueTwice` reaches that state through two calls of `Library.IssueBook`. `EnabledBorrowKeepsSingleActive` shows that the button's gate preserves the property.
- **An overdue loan cannot be returned.** The description allows an `overdue → returned` transition. The code returns only `active` loans (`src/context/LibraryContext.tsx:99`). A loan that `updateLoanFine` marked overdue can therefore never be returned (`AssessedLoanNotReturnable`). It also leaves the administrator's table (`AssessedLoanLeavesTable`).
- **A return whose book is gone changes nothing.** The description commits the loan side of such a return and skips only the book side. The code does nothing at all (`src/context/LibraryContext.tsx:101-102`).
- **`updateLoanFine` rewrites any matching loan.** The description makes `returned` terminal, requires a positive amount and reports `NotFound`. The code rewrites any matching loan, a returned one included, with any amount, and ignores an unknown id (`src/context/LibraryContext.tsx:84-95`). `FindAfterAssess` and `OutstandingAfterAssess` show the returned loan reopened as overdue and counted again.
- **No validation in `addBook`.** The description rejects invalid input, such as `quantity < 1` or empty strings. `addBook` validates nothing; only the form's HTML attributes do.

## Model

| member | source | states |
|---|---|---|
| Types.ParseStatus | src/types.ts:24 | the status values are exactly the three names `active`, `returned`, `overdue`: a string names a status exactly when it is one of them |
| Types.StatusNamesRoundTrip | src/types.ts:24 | every loan status reads back as itself from its stored name |
| Types.ParseRole | src/types.ts:15 | the role values are exactly the two names `admin` and `user` |
| Types.RoleNamesRoundTrip | src/types.ts:15 | every role reads back as itself from its stored name |
| Types.WithId | src/types.ts:1-9 | a book is exactly an id plus the other six fields; the record with given id and fields is unique |
| Types.FineOrZero | src/types.ts:25 | an absent fine and a zero fine both read as 0; otherwise the stored amount |
| Sequences.Filter | src/context/LibraryContext.tsx:64 | `filter` keeps exactly the elements that satisfy the predicate, never more than the input |
| Sequences.FilterAppend | src/context/LibraryContext.tsx:64 | `filter` keeps the input's order: filtering a concatenation concatenates the filtered parts |
| Sequences.FindBy | src/context/LibraryContext.tsx:124 | `find` is empty exactly when no element has the key, and otherwise returns the first element that has it |
| Sequences.ReplaceBy | src/context/LibraryContext.tsx:60 | the replacing `map` keeps the length and puts the new record at exactly the positions with its key |
| Sequences.FindAfterReplace | src/context/LibraryContext.tsx:59-61 | after a replacement, a lookup of the replaced key finds the new record and a lookup of any other key is unchanged |
| Sequences.FilterUnique | src/context/LibraryContext.tsx:63-65 | removing elements keeps ids unique |
| Sequences.ReplaceUnique | src/context/LibraryContext.tsx:59-61 | replacing a record keeps ids unique and the set of ids unchanged |
| Sequences.ReplaceAbsent | src/context/LibraryContext.tsx:59-61 | replacing by an id that is not present changes nothing |
| Time.CeilDiv | src/components/user/UserLoans.tsx:15 | `Math.ceil(a / d)` is the unique q with d·(q−1) < a ≤ d·q |
| Time.CeilDivMonotone | src/components/admin/LoanManagement.tsx:17-18 | the rounded-up quotient never decreases as the dividend grows |
| Time.CeilDivUnique | src/components/admin/LoanManagement.tsx:17-18 | any q with d·(q−1) < a ≤ d·q is the rounded-up quotient |
| LibraryContext.NewLoan | src/context/LibraryContext.tsx:71-78 | the new loan carries the given ids, is due 14 days after `now`, is active, has no return date and a fine of 0 |
| LibraryContext.Assessed | src/context/LibraryContext.tsx:87-91 | a fined loan has the fine and status overdue, and every other field unchanged |
| LibraryContext.Settled | src/context/LibraryContext.tsx:106-111 | a returned loan has return date `now`, status returned and the settled fine, and every other field unchanged |
| LibraryContext.Returnable | src/context/LibraryContext.tsx:98-102 | a return is refused exactly when the loan is missing, the first loan with that id is not active, or its book is missing |
| LibraryContext.SettledFine | src/context/LibraryContext.tsx:110 | the fine a return stores is the supplied fine when nonzero, else the previous fine when nonzero, else 0 |
| LibraryContext.AssessFine | src/context/LibraryContext.tsx:84-95 | every loan with that id gets the fine and status overdue, whatever its status; every other loan is unchanged; the length is kept |
| LibraryContext.MarkReturned | src/context/LibraryContext.tsx:104-114 | every loan with that id gets return date `now`, status returned and the settled fine; every other loan is unchanged |
| LibraryContext.Restocked | src/context/LibraryContext.tsx:81 | only `available` changes, by exactly the given amount |
| LibraryContext.AvailableAfterReplace | src/context/LibraryContext.tsx:81 | after `updateBook`, only the updated id's available count can have changed |
| LibraryContext.OutstandingAppend | src/context/LibraryContext.tsx:80 | a new loan adds one to its book's count of loans not returned, and nothing to any other book's |
| LibraryContext.OutstandingAfterAssess | src/context/LibraryContext.tsx:84-95 | a fine changes a book's count of loans not returned only when it reopens a returned loan of that book, by one |
| LibraryContext.OutstandingAfterReturn | src/context/LibraryContext.tsx:104-114 | a return lowers the count of its book by one exactly when the loan was not returned before |
| LibraryContext.IssueConserves | src/context/LibraryContext.tsx:67-82 | issuing keeps available plus loans not returned for every book id, and leaves the issued book's available count ≥ 0 |
| LibraryContext.ReturnConserves | src/context/LibraryContext.tsx:97-117 | returning keeps available plus loans not returned for every book id |
| LibraryContext.AssessConserves | src/context/LibraryContext.tsx:84-95 | a fine on a loan that is not returned keeps available plus loans not returned for every book id |
| LibraryContext.FindBookHasId | src/context/LibraryContext.tsx:124 | a book found by id has that id |
| LibraryContext.FindAfterMarkReturned | src/context/LibraryContext.tsx:97-117 | after a return, the loan is found settled: returned, dated `now`, with the settled fine |
| LibraryContext.FindAfterAssess | src/context/LibraryContext.tsx:84-95 | after a fine, the loan is found assessed, a returned loan included |
| LibraryContext.SecondReturnRefused | src/context/LibraryContext.tsx:98-99 | a second return of the same loan is refused |
| LibraryContext.AssessedLoanNotReturnable | src/context/LibraryContext.tsx:99 | a loan marked overdue by a fine can no longer be returned |
| LibraryContext.AssessKeepsSingleActive | src/context/LibraryContext.tsx:84-95 | a fine never creates two active loans of one book for one borrower |
| LibraryContext.ReturnKeepsSingleActive | src/context/LibraryContext.tsx:97-117 | a return never creates two active loans of one book for one borrower |
| LibraryContext.IssueAllowsSecondActiveLoan | src/context/LibraryContext.tsx:67-82 | for any ledger with an active loan, issuing the same book to the same borrower again breaks one-active-loan-per-book |
| LibraryContext.IssueTwice | src/context/LibraryContext.tsx:67-82 | two `issueBook` calls for one borrower and one book with two copies available leave that borrower two active loans of it |
| LibraryContext.LoansOfUserAfterIssue | src/context/LibraryContext.tsx:119-121 | a borrower's list gains the new loan at its end exactly when it is theirs |
| LibraryContext.AssessKeepsIds | src/context/LibraryContext.tsx:84-95 | a fine keeps loan ids unique |
| LibraryContext.ReturnKeepsIds | src/context/LibraryContext.tsx:104-114 | a return keeps loan ids unique |
| LibraryContext.Library.constructor | src/context/LibraryContext.tsx:33-41 | the ledger starts from the stored books and loans |
| LibraryContext.Library.AddBook | src/context/LibraryContext.tsx:51-57 | exactly one book is appended: the supplied fields under the fresh id; the existing books are unchanged and in order; loans are unchanged |
| LibraryContext.Library.UpdateBook | src/context/LibraryContext.tsx:59-61 | the whole record with the matching id is replaced; an unknown id changes nothing; loans are unchanged |
| LibraryContext.Library.DeleteBook | src/context/LibraryContext.tsx:63-65 | exactly the books with that id are removed, the rest kept in order; loans are unchanged |
| LibraryContext.Library.IssueBook | src/context/LibraryContext.tsx:67-82 | a missing book or one with available ≤ 0 changes nothing; otherwise one active loan is appended, due 14 days later with fine 0, and that book's available count drops by one |
| LibraryContext.Library.UpdateLoanFine | src/context/LibraryContext.tsx:84-95 | the matching loan gets the fine and status overdue; books are unchanged |
| LibraryContext.Library.ReturnBook | src/context/LibraryContext.tsx:97-117 | a missing loan, a loan that is not active, or a missing book changes nothing; otherwise the loan is settled and its book's available count rises by one |
| LibraryContext.Library.GetUserLoans | src/context/LibraryContext.tsx:119-121 | exactly the loans of that user |
| LibraryContext.Library.GetBookById | src/context/LibraryContext.tsx:123-125 | the first book with that id, or none when there is none |
| UserLoans.VisibleLoans | src/components/user/UserLoans.tsx:9 | exactly the signed-in user's loans; none when no user is signed in |
| UserLoans.VisibleLoansAreUserLoans | src/components/user/UserLoans.tsx:9 | the borrower's list is the ledger's `getUserLoans` for that user |
| UserLoans.BookCell | src/components/user/UserLoans.tsx:42-48 | the title of the first book with the loan's book id, or empty when there is none |
| UserLoans.CalculateFine | src/components/user/UserLoans.tsx:11-17 | 0 for an empty due date and up to the due instant; otherwise 50 per started day late, at least 50 |
| UserLoans.FineIsRateTimesOverdueDays | src/components/user/UserLoans.tsx:15-16 | the borrower's fine is 50 times the administrator's overdue-day count |
| UserLoans.CalculateFineMonotone | src/components/user/UserLoans.tsx:15-16 | the fine never decreases as time passes |
| UserLoans.CurrentFine | src/components/user/UserLoans.tsx:43 | the stored fine when nonzero; else the computed fine for an active loan; else 0 |
| UserLoans.StoredFineIsAuthoritative | src/components/user/UserLoans.tsx:43 | a loan with a stored fine, or one that is not active, shows the same fine at any time |
| UserLoans.NewLoanShowsNoFine | src/components/user/UserLoans.tsx:43 | a freshly issued loan shows no fine during its fourteen days |
| UserLoans.ReturnedLoanShowsSettledFine | src/components/user/UserLoans.tsx:43 | a returned loan shows exactly the fine the return settled |
| UserLoans.UpperCase | src/components/user/UserLoans.tsx:63 | a lower-case ASCII letter becomes its upper-case letter; any other character is unchanged |
| UserLoans.Capitalize | src/components/user/UserLoans.tsx:63 | only the first character is upper-cased; the rest and the length are kept |
| UserLoans.StatusLabel | src/components/user/UserLoans.tsx:63 | the labels are "Active", "Returned" and "Overdue" |
| UserLoans.ShowFine | src/components/user/UserLoans.tsx:67-71 | an amount is shown exactly when it is > 0; otherwise a dash |
| BookCatalog.UserActiveLoans | src/components/user/BookCatalog.tsx:9-11 | exactly the signed-in user's active loans |
| BookCatalog.CanBorrow | src/components/user/BookCatalog.tsx:13-15 | holds exactly when the user has no active loan of the book; overdue and returned loans do not block |
| BookCatalog.BorrowDisabled | src/components/user/BookCatalog.tsx:35 | disabled exactly when the user has an active loan of the book or available is exactly 0 |
| BookCatalog.BorrowLabel | src/components/user/BookCatalog.tsx:42-46 | "Already Borrowed" takes precedence over "Not Available"; "Borrow Book" exactly when enabled |
| BookCatalog.BorrowClick | src/components/user/BookCatalog.tsx:34 | a click asks for `issueBook(book.id, user.id)` exactly when a user is signed in |
| BookCatalog.EnabledBorrowKeepsSingleActive | src/components/user/BookCatalog.tsx:13-15 | a loan issued through an enabled button keeps every borrower to one active loan per book |
| LoanManagement.BookTitle | src/components/admin/LoanManagement.tsx:9-12 | the title of the first book with that id, else "Unknown Book" |
| LoanManagement.OverdueDays | src/components/admin/LoanManagement.tsx:14-20 | 0 exactly when now ≤ due; otherwise the number of started days late, at least 1 |
| LoanManagement.OverdueDaysMonotone | src/components/admin/LoanManagement.tsx:14-20 | the count never decreases as time passes |
| LoanManagement.OverdueWholeDays | src/components/admin/LoanManagement.tsx:14-20 | exactly n days after the due date the count is n |
| LoanManagement.ActiveLoans | src/components/admin/LoanManagement.tsx:66-67 | exactly the active loans are listed |
| LoanManagement.AssessedLoanLeavesTable | src/components/admin/LoanManagement.tsx:66-67 | after a fine, the loan is no longer listed |
| LoanManagement.LoanStatusCell | src/components/admin/LoanManagement.tsx:80-86 | "Overdue by N days", with N ≥ 1 the overdue-day count, exactly when now is past the due date; otherwise "Active" |
| LoanManagement.DraftAmount | src/components/admin/LoanManagement.tsx:30 | the draft for the loan, or 0 when there is none |
| LoanManagement.DraftArgument | src/components/admin/LoanManagement.tsx:111 | the draft passed to `returnBook`: absent exactly when there is none |
| LoanManagement.SendFineDisabled | src/components/admin/LoanManagement.tsx:105 | "Send Fine" is enabled exactly when a draft exists and is > 0 |
| LoanManagement.SendFineEnabledIffSent | src/components/admin/LoanManagement.tsx:29-39 | the button is enabled exactly when pressing it calls `updateLoanFine` |
| LoanManagement.FineDrafts.constructor | src/components/admin/LoanManagement.tsx:7 | the drafts start empty |
| LoanManagement.FineDrafts.ChangeFine | src/components/admin/LoanManagement.tsx:22-27 | the loan's draft is set and every other draft is unchanged |
| LoanManagement.FineDrafts.SendFine | src/components/admin/LoanManagement.tsx:29-39 | a draft > 0 is assessed on the loan and then dropped; otherwise neither ledger nor drafts change |
| LoanManagement.FineDrafts.Return | src/components/admin/LoanManagement.tsx:110-117 | the draft, possibly absent, is passed to `returnBook`, with that method's outcome; the draft is dropped |
| BookManagement.WithText | src/components/admin/BookManagement.tsx:44-84 | a text input changes only its own field |
| BookManagement.Merge | src/components/admin/BookManagement.tsx:21 | the edited book keeps its id and takes every other field from the form |
| BookManagement.MergeIgnoresEditedFields | src/components/admin/BookManagement.tsx:21 | what a submit sends depends on the edited book only through its id |
| BookManagement.SubmittedBookFullyAvailable | src/components/admin/BookManagement.tsx:18-34 | a submitted book has as many copies available as copies in total |
| BookManagement.BookForm.constructor | src/components/admin/BookManagement.tsx:8-16 | the form starts empty with one copy, one available, and no book being edited |
| BookManagement.BookForm.ChangeText | src/components/admin/BookManagement.tsx:44-84 | only that text field changes |
| BookManagement.BookForm.ChangeQuantity | src/components/admin/BookManagement.tsx:64 | quantity and available are both set to the new value |
| BookManagement.BookForm.Edit | src/components/admin/BookManagement.tsx:130 | only the book being edited changes; the form is not loaded |
| BookManagement.BookForm.Cancel | src/components/admin/BookManagement.tsx:95-104 | no book is being edited and the form is reset |
| BookManagement.BookForm.Submit | src/components/admin/BookManagement.tsx:18-34 | while editing, the book is updated with the merged record and editing ends; otherwise the form is added under a fresh id; the form is reset and loans are unchanged |

## Left out

- Loading the state from browser storage and saving it back, with JSON parsing and printing (`src/context/LibraryContext.tsx:33-49`), is I/O. The constructor takes the stored collections as arguments and requires unique ids in them.
- Random id generation (`src/context/LibraryContext.tsx:54,72`) is nondeterministic. Fresh ids are caller-supplied and required not to be in use.
- The clock, ISO date strings, their parsing and `toLocaleDateString` are left out. Times are integer milliseconds and `now` is a parameter. `CalculateFine` takes an optional due date to model the empty-string guard.
- Floating-point arithmetic is not modelled: fractional fines, `Number(...)`/`parseInt` on input text, NaN, and `toFixed(2)`. Fines and quantities are integers, and `Math.ceil` of a floating-point division is exact integer ceiling division.
- React hooks, deferred state updates and stale closures, and the authentication context are not modelled. Each handler is one atomic step; the signed-in user is an `Option<User>` argument.
- The screens' markup, styling, the application's role routing and the navigation bar are presentation with no state rules.
- The HTML `required` and `min` attributes of the form inputs are not modelled: the form accepts any value, as `addBook` does.
- The "Delete" button of the book list (`src/components/admin/BookManagement.tsx:136`) calls `deleteBook` directly and is covered by `LibraryContext.Library.DeleteBook`.
- LibraryContext.Library.IssueBook: the conservation of available plus loans not returned is stated by the lemma `IssueConserves` rather than in the method's contract.
- LibraryContext.Library.ReturnBook: the conservation of available plus loans not returned is stated by the lemma `ReturnConserves` rather than in the method's contract.
- UserLoans.UpperCase: upper-cases ASCII letters only, while JavaScript's `toUpperCase` also maps other letters (such as 'é' to 'É'); it is only applied to the first letter of a status name, which is always ASCII, so the labels are unaffected.
