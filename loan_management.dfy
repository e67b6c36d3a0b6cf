/** The administrator's loan table: the active-loan list, the overdue-day count
    shown for each loan, and the draft fines typed next to each loan, which are
    sent to the ledger by "Send Fine" and "Return". */
module LoanManagement {

  import opened Wrappers
  import opened Types
  import opened Sequences
  import opened LibraryContext
  import Time

  /** `getBookTitle`: the title of the first book with that id, else "Unknown Book". */
  function BookTitle(books: seq<Book>, bookId: BookId): (r: string)
    ensures (forall b :: b in books ==> b.id != bookId) ==> r == "Unknown Book"
    ensures (exists b :: b in books && b.id == bookId) ==>
              exists i :: 0 <= i < |books| && books[i].id == bookId && r == books[i].title &&
                          forall j :: 0 <= j < i ==> books[j].id != bookId
  {
    match FindBook(books, bookId)
    case Some(b) => b.title
    case None => "Unknown Book"
  }

  /** `calculateOverdueDays`: whole days past the due date, rounded up, and 0
      up to and including the due instant. */
  function OverdueDays(due: Millis, now: Millis): (r: nat)
    ensures r == 0 <==> now <= due
    ensures r > 0 ==> Time.DAY_MS * (r - 1) < now - due <= Time.DAY_MS * r
  {
    var days := Time.CeilDiv(now - due, Time.DAY_MS);
    if days > 0 then days else 0
  }

  /** The overdue-day count never decreases as time passes. */
  lemma OverdueDaysMonotone(due: Millis, now1: Millis, now2: Millis)
    requires now1 <= now2
    ensures OverdueDays(due, now1) <= OverdueDays(due, now2)
  {
    Time.CeilDivMonotone(now1 - due, now2 - due, Time.DAY_MS);
  }

  /** Exactly `n` days after the due date, the count is `n`. */
  lemma OverdueWholeDays(due: Millis, n: nat)
    ensures OverdueDays(due, due + n * Time.DAY_MS) == n
  {
    if n > 0 {
      Time.CeilDivUnique(n * Time.DAY_MS, Time.DAY_MS, n);
    }
  }

  predicate IsActive(l: Loan)
  {
    l.status == Active
  }

  /** `loans.filter(loan => loan.status === 'active')`: the rows of the table. */
  function ActiveLoans(loans: seq<Loan>): (r: seq<Loan>)
    ensures forall l :: l in r <==> l in loans && l.status == Active
  {
    Filter(loans, IsActive)
  }

  /** A loan that `updateLoanFine` made overdue leaves the table, so the
      "Return" button can no longer reach it. */
  lemma AssessedLoanLeavesTable(loans: seq<Loan>, id: LoanId, fine: int)
    ensures forall l :: l in ActiveLoans(AssessFine(loans, id, fine)) ==> l.id != id
  {
    var r := AssessFine(loans, id, fine);
    forall l | l in ActiveLoans(r) ensures l.id != id {
      var i :| 0 <= i < |r| && r[i] == l;
    }
  }

  /** The status cell: "Overdue by N days" or "Active". */
  datatype StatusCell = OverdueBy(days: nat) | OnTime

  function LoanStatusCell(loan: Loan, now: Millis): (r: StatusCell)
    ensures r.OverdueBy? <==> now > loan.dueDate
    ensures r.OverdueBy? ==> r.days >= 1 && r.days == OverdueDays(loan.dueDate, now)
  {
    var days := OverdueDays(loan.dueDate, now);
    if days > 0 then OverdueBy(days) else OnTime
  }

  // ---------------------------------------------------------------------------
  // Draft fines

  /** `fines[loanId] || 0` */
  function DraftAmount(fines: map<LoanId, int>, loanId: LoanId): (r: int)
    ensures loanId in fines ==> r == fines[loanId]
    ensures loanId !in fines ==> r == 0
  {
    if loanId in fines then fines[loanId] else 0
  }

  /** `fines[loanId]` as passed to `returnBook`: absent when no draft exists. */
  function DraftArgument(fines: map<LoanId, int>, loanId: LoanId): (r: Option<int>)
    ensures r.Some? <==> loanId in fines
    ensures r.Some? ==> r.value == fines[loanId]
  {
    if loanId in fines then Some(fines[loanId]) else None
  }

  /** "Send Fine" is disabled unless a positive draft exists. */
  function SendFineDisabled(fines: map<LoanId, int>, loanId: LoanId): (r: bool)
    ensures !r <==> loanId in fines && fines[loanId] > 0
  {
    var draft := DraftArgument(fines, loanId);
    !IsSet(draft) || draft.value <= 0
  }

  /** The button is enabled exactly when pressing it reaches the ledger. */
  lemma SendFineEnabledIffSent(fines: map<LoanId, int>, loanId: LoanId)
    ensures !SendFineDisabled(fines, loanId) <==> DraftAmount(fines, loanId) > 0
  {
  }

  /** The draft fines of the loan table, keyed by loan id. */
  class FineDrafts {
    var fines: map<LoanId, int>

    constructor ()
      ensures fines == map[]
    {
      fines := map[];
    }

    /** `handleFineChange`: sets the draft of one loan, every other draft unchanged. */
    method ChangeFine(loanId: LoanId, amount: int)
      modifies this
      ensures fines == old(fines)[loanId := amount]
      ensures forall other :: other != loanId ==>
                (other in fines <==> other in old(fines)) &&
                (other in fines ==> fines[other] == old(fines)[other])
    {
      fines := fines[loanId := amount];
    }

    /** `handleSendFine`: a positive draft is sent to `updateLoanFine` and then
        dropped; otherwise nothing happens. */
    method SendFine(loanId: LoanId, library: Library)
      requires library.Valid()
      modifies this, library
      ensures library.Valid()
      ensures DraftAmount(old(fines), loanId) > 0 ==>
                library.loans == AssessFine(old(library.loans), loanId, DraftAmount(old(fines), loanId)) &&
                fines == old(fines) - {loanId}
      ensures DraftAmount(old(fines), loanId) <= 0 ==>
                library.loans == old(library.loans) && fines == old(fines)
      ensures library.books == old(library.books)
    {
      var amount := DraftAmount(fines, loanId);
      if amount > 0 {
        library.UpdateLoanFine(loanId, amount);
        fines := fines - {loanId};
      }
    }

    /** The "Return" button: the draft, possibly absent, goes to `returnBook`,
        and the draft is dropped. */
    method Return(loanId: LoanId, library: Library, now: Millis)
      requires library.Valid()
      modifies this, library
      ensures library.Valid()
      ensures fines == old(fines) - {loanId}
      ensures !Returnable(old(library.books), old(library.loans), loanId) ==>
                library.books == old(library.books) && library.loans == old(library.loans)
      ensures Returnable(old(library.books), old(library.loans), loanId) ==>
                library.loans == MarkReturned(old(library.loans), loanId, now, DraftArgument(old(fines), loanId))
      ensures Returnable(old(library.books), old(library.loans), loanId) ==>
                library.books == ReplaceBook(old(library.books),
                                             Restocked(ReturnedBook(old(library.books), old(library.loans), loanId), 1))
    {
      library.ReturnBook(loanId, DraftArgument(fines, loanId), now);
      fines := fines - {loanId};
    }
  }
}
