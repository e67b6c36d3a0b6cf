/** The library ledger: the in-memory `books` and `loans` collections, the six
    operations that change them and the two lookups. Every operation is one
    atomic step over the state at call time. */
module LibraryContext {

  import opened Wrappers
  import opened Types
  import opened Sequences
  import Time

  function BookKey(b: Book): BookId { b.id }

  function LoanKey(l: Loan): LoanId { l.id }

  ghost function BookIds(books: seq<Book>): set<BookId> { Keys(books, BookKey) }

  ghost function LoanIds(loans: seq<Loan>): set<LoanId> { Keys(loans, LoanKey) }

  /** `books.find(b => b.id === id)` */
  function FindBook(books: seq<Book>, id: BookId): Option<Book>
  {
    FindBy(books, BookKey, id)
  }

  /** `loans.find(l => l.id === id)` */
  function FindLoan(loans: seq<Loan>, id: LoanId): Option<Loan>
  {
    FindBy(loans, LoanKey, id)
  }

  /** `books.map(book => book.id === b.id ? b : book)` */
  function ReplaceBook(books: seq<Book>, b: Book): seq<Book>
  {
    ReplaceBy(books, BookKey, b)
  }

  function Without(id: BookId): Book -> bool
  {
    (b: Book) => b.id != id
  }

  /** `books.filter(book => book.id !== id)` */
  function RemoveBook(books: seq<Book>, id: BookId): seq<Book>
  {
    Filter(books, Without(id))
  }

  function ByUser(userId: UserId): Loan -> bool
  {
    (l: Loan) => l.userId == userId
  }

  /** `loans.filter(loan => loan.userId === userId)` */
  function LoansOfUser(loans: seq<Loan>, userId: UserId): seq<Loan>
  {
    Filter(loans, ByUser(userId))
  }

  /** The record `issueBook` creates: due fourteen days after `now`, active,
      with a zero fine and no return date. */
  function NewLoan(id: LoanId, bookId: BookId, userId: UserId, now: Millis): (r: Loan)
    ensures r.id == id && r.bookId == bookId && r.userId == userId
    ensures r.dueDate - now == 14 * Time.DAY_MS
    ensures r.status == Active && r.returnDate.None? && r.fine == Some(0) && !IsSet(r.fine)
  {
    Loan(id, bookId, userId, now + Time.LOAN_PERIOD_MS, None, Active, Some(0))
  }

  /** The loan after `updateLoanFine`: the fine is set and the status is overdue. */
  function Assessed(l: Loan, fine: int): (r: Loan)
    ensures r.fine == Some(fine) && r.status == Overdue
    ensures r.(fine := l.fine, status := l.status) == l
  {
    l.(fine := Some(fine), status := Overdue)
  }

  /** `fine || l.fine || 0`: the fine a return stores. */
  function SettledFine(supplied: Option<int>, prior: Option<int>): (r: int)
    ensures IsSet(supplied) ==> r == supplied.value
    ensures !IsSet(supplied) && IsSet(prior) ==> r == prior.value
    ensures r == 0 <==> !IsSet(supplied) && !IsSet(prior)
  {
    if IsSet(supplied) then supplied.value else FineOrZero(prior)
  }

  /** The loan after `returnBook`: returned at `now`, with the settled fine. */
  function Settled(l: Loan, now: Millis, supplied: Option<int>): (r: Loan)
    ensures r.returnDate == Some(now) && r.status == Returned
    ensures r.fine == Some(SettledFine(supplied, l.fine))
    ensures r.(returnDate := l.returnDate, status := l.status, fine := l.fine) == l
  {
    l.(returnDate := Some(now), status := Returned, fine := Some(SettledFine(supplied, l.fine)))
  }

  /** The `loans.map` of `updateLoanFine`: every loan with that id is assessed,
      every other loan is left as it is. */
  function AssessFine(loans: seq<Loan>, id: LoanId, fine: int): (r: seq<Loan>)
    ensures |r| == |loans|
    ensures forall i :: 0 <= i < |loans| ==>
              r[i] == if loans[i].id == id then Assessed(loans[i], fine) else loans[i]
  {
    if loans == [] then []
    else [if loans[0].id == id then Assessed(loans[0], fine) else loans[0]]
         + AssessFine(loans[1..], id, fine)
  }

  /** The `loans.map` of `returnBook`: every loan with that id is settled,
      every other loan is left as it is. */
  function MarkReturned(loans: seq<Loan>, id: LoanId, now: Millis, supplied: Option<int>): (r: seq<Loan>)
    ensures |r| == |loans|
    ensures forall i :: 0 <= i < |loans| ==>
              r[i] == if loans[i].id == id then Settled(loans[i], now, supplied) else loans[i]
  {
    if loans == [] then []
    else [if loans[0].id == id then Settled(loans[0], now, supplied) else loans[0]]
         + MarkReturned(loans[1..], id, now, supplied)
  }

  /** `{ ...b, available: b.available + delta }` */
  function Restocked(b: Book, delta: int): (r: Book)
    ensures r.available == b.available + delta && r.(available := b.available) == b
  {
    b.(available := b.available + delta)
  }

  /** The guard of `returnBook`: the loan exists, is active, and its book exists. */
  predicate Returnable(books: seq<Book>, loans: seq<Loan>, id: LoanId): (r: bool)
    ensures !r <==> id !in LoanIds(loans) ||
                    (var l := FindLoan(loans, id).value;
                     l.status != Active || l.bookId !in BookIds(books))
  {
    var l := FindLoan(loans, id);
    l.Some? && l.value.status == Active && FindBook(books, l.value.bookId).Some?
  }

  /** The book of the loan `returnBook` settles. */
  function ReturnedBook(books: seq<Book>, loans: seq<Loan>, id: LoanId): Book
    requires Returnable(books, loans, id)
  {
    FindBook(books, FindLoan(loans, id).value.bookId).value
  }

  // ---------------------------------------------------------------------------
  // Availability bookkeeping

  /** The `available` count of the book with id `k` (0 when there is none). */
  ghost function AvailableOf(books: seq<Book>, k: BookId): int
  {
    match FindBook(books, k)
    case Some(b) => b.available
    case None => 0
  }

  function OutstandingFor(k: BookId): Loan -> bool
  {
    (l: Loan) => l.bookId == k && l.status != Returned
  }

  /** The number of loans of book `k` that still hold a copy (not returned). */
  ghost function Outstanding(loans: seq<Loan>, k: BookId): nat
  {
    |Filter(loans, OutstandingFor(k))|
  }

  /** Copies on the shelf plus copies out on loan. */
  ghost function Balance(books: seq<Book>, loans: seq<Loan>, k: BookId): int
  {
    AvailableOf(books, k) + Outstanding(loans, k)
  }

  lemma AvailableAfterReplace(books: seq<Book>, b: Book, k: BookId)
    ensures AvailableOf(ReplaceBook(books, b), k) ==
            if k == b.id && FindBook(books, k).Some? then b.available else AvailableOf(books, k)
  {
    FindAfterReplace(books, BookKey, b, k);
  }

  lemma OutstandingAppend(loans: seq<Loan>, l: Loan, k: BookId)
    ensures Outstanding(loans + [l], k) ==
            Outstanding(loans, k) + if l.bookId == k && l.status != Returned then 1 else 0
  {
    FilterAppend(loans, [l], OutstandingFor(k));
    assert [l][1..] == [];
  }

  /** `updateLoanFine` changes the count of outstanding loans only when it is
      applied to a returned loan: that loan becomes overdue and counts again. */
  lemma {:induction false} OutstandingAfterAssess(loans: seq<Loan>, id: LoanId, fine: int, k: BookId)
    requires UniqueBy(loans, LoanKey)
    ensures var l := FindLoan(loans, id);
            Outstanding(AssessFine(loans, id, fine), k) ==
            Outstanding(loans, k) + if l.Some? && l.value.status == Returned && l.value.bookId == k then 1 else 0
  {
    if loans != [] {
      var r := AssessFine(loans, id, fine);
      var t := loans[1..];
      assert UniqueBy(t, LoanKey) by {
        forall i, j | 0 <= i < j < |t| ensures t[i].id != t[j].id {
          assert t[i] == loans[i + 1] && t[j] == loans[j + 1];
        }
      }
      assert r == [r[0]] + AssessFine(t, id, fine);
      if loans[0].id == id {
        assert AssessFine(t, id, fine) == t by {
          forall i | 0 <= i < |t| ensures t[i].id != id {
            assert t[i] == loans[i + 1];
          }
        }
      } else {
        OutstandingAfterAssess(t, id, fine, k);
      }
    }
  }

  /** `returnBook` on an outstanding loan removes exactly that loan from the
      count of its book. */
  lemma {:induction false} OutstandingAfterReturn(loans: seq<Loan>, id: LoanId, now: Millis,
                                                  supplied: Option<int>, k: BookId)
    requires UniqueBy(loans, LoanKey)
    ensures var l := FindLoan(loans, id);
            Outstanding(MarkReturned(loans, id, now, supplied), k) ==
            Outstanding(loans, k) - if l.Some? && l.value.status != Returned && l.value.bookId == k then 1 else 0
  {
    if loans != [] {
      var r := MarkReturned(loans, id, now, supplied);
      var t := loans[1..];
      assert UniqueBy(t, LoanKey) by {
        forall i, j | 0 <= i < j < |t| ensures t[i].id != t[j].id {
          assert t[i] == loans[i + 1] && t[j] == loans[j + 1];
        }
      }
      assert r == [r[0]] + MarkReturned(t, id, now, supplied);
      if loans[0].id == id {
        assert MarkReturned(t, id, now, supplied) == t by {
          forall i | 0 <= i < |t| ensures t[i].id != id {
            assert t[i] == loans[i + 1];
          }
        }
      } else {
        OutstandingAfterReturn(t, id, now, supplied, k);
      }
    }
  }

  /** Issuing conserves, for every book id, copies on the shelf plus copies
      out, and leaves the issued book with a non-negative count. */
  lemma IssueConserves(books: seq<Book>, loans: seq<Loan>, b: Book, loanId: LoanId,
                       userId: UserId, now: Millis, k: BookId)
    requires FindBook(books, b.id) == Some(b) && b.available > 0
    ensures Balance(ReplaceBook(books, Restocked(b, -1)),
                    loans + [NewLoan(loanId, b.id, userId, now)], k) ==
            Balance(books, loans, k)
    ensures AvailableOf(ReplaceBook(books, Restocked(b, -1)), b.id) ==
            b.available - 1 >= 0
  {
    AvailableAfterReplace(books, Restocked(b, -1), b.id);
    AvailableAfterReplace(books, Restocked(b, -1), k);
    OutstandingAppend(loans, NewLoan(loanId, b.id, userId, now), k);
  }

  /** Returning conserves, for every book id, copies on the shelf plus copies out. */
  lemma ReturnConserves(books: seq<Book>, loans: seq<Loan>, id: LoanId, now: Millis,
                        supplied: Option<int>, k: BookId)
    requires UniqueBy(loans, LoanKey) && Returnable(books, loans, id)
    ensures Balance(ReplaceBook(books, Restocked(ReturnedBook(books, loans, id), 1)),
                    MarkReturned(loans, id, now, supplied), k) ==
            Balance(books, loans, k)
  {
    var l := FindLoan(loans, id).value;
    var b := ReturnedBook(books, loans, id);
    assert b.id == l.bookId by {
      FindBookHasId(books, l.bookId);
    }
    AvailableAfterReplace(books, Restocked(b, 1), k);
    OutstandingAfterReturn(loans, id, now, supplied, k);
  }

  lemma FindBookHasId(books: seq<Book>, k: BookId)
    ensures FindBook(books, k).Some? ==> FindBook(books, k).value.id == k
  {
  }

  /** Assessing a fine on a loan that is not returned conserves, for every book
      id, copies on the shelf plus copies out. */
  lemma AssessConserves(books: seq<Book>, loans: seq<Loan>, id: LoanId, fine: int, k: BookId)
    requires UniqueBy(loans, LoanKey)
    requires FindLoan(loans, id).Some? ==> FindLoan(loans, id).value.status != Returned
    ensures Balance(books, AssessFine(loans, id, fine), k) == Balance(books, loans, k)
  {
    OutstandingAfterAssess(loans, id, fine, k);
  }

  /** After `returnBook`'s map, looking the loan up finds it settled. */
  lemma {:induction false} FindAfterMarkReturned(loans: seq<Loan>, id: LoanId, now: Millis, supplied: Option<int>)
    ensures FindLoan(MarkReturned(loans, id, now, supplied), id) ==
            match FindLoan(loans, id)
            case None => None
            case Some(l) => Some(Settled(l, now, supplied))
  {
    if loans != [] {
      var r := MarkReturned(loans, id, now, supplied);
      assert r[1..] == MarkReturned(loans[1..], id, now, supplied);
      FindAfterMarkReturned(loans[1..], id, now, supplied);
    }
  }

  /** After `updateLoanFine`'s map, looking the loan up finds it assessed,
      whatever its status was, a returned loan included. */
  lemma {:induction false} FindAfterAssess(loans: seq<Loan>, id: LoanId, fine: int)
    ensures FindLoan(AssessFine(loans, id, fine), id) ==
            match FindLoan(loans, id)
            case None => None
            case Some(l) => Some(Assessed(l, fine))
  {
    if loans != [] {
      var r := AssessFine(loans, id, fine);
      assert r[1..] == AssessFine(loans[1..], id, fine);
      FindAfterAssess(loans[1..], id, fine);
    }
  }

  /** A second `returnBook` of the same loan is refused, whatever the books are
      by then. */
  lemma SecondReturnRefused(books: seq<Book>, laterBooks: seq<Book>, loans: seq<Loan>, id: LoanId,
                            now: Millis, supplied: Option<int>)
    requires Returnable(books, loans, id)
    ensures !Returnable(laterBooks, MarkReturned(loans, id, now, supplied), id)
  {
    FindAfterMarkReturned(loans, id, now, supplied);
  }

  /** A loan `updateLoanFine` has marked overdue can no longer be returned. */
  lemma AssessedLoanNotReturnable(books: seq<Book>, loans: seq<Loan>, id: LoanId, fine: int)
    ensures !Returnable(books, AssessFine(loans, id, fine), id)
  {
    FindAfterAssess(loans, id, fine);
  }

  // ---------------------------------------------------------------------------
  // At most one active loan per book and borrower

  /** No two active loans share both book and borrower. */
  ghost predicate SingleActive(loans: seq<Loan>)
  {
    forall i, j :: 0 <= i < j < |loans| && loans[i].status == Active && loans[j].status == Active ==>
      loans[i].bookId != loans[j].bookId || loans[i].userId != loans[j].userId
  }

  /** `updateLoanFine` never makes a loan active, so it keeps the property. */
  lemma AssessKeepsSingleActive(loans: seq<Loan>, id: LoanId, fine: int)
    requires SingleActive(loans)
    ensures SingleActive(AssessFine(loans, id, fine))
  {
  }

  /** `returnBook` never makes a loan active, so it keeps the property. */
  lemma ReturnKeepsSingleActive(loans: seq<Loan>, id: LoanId, now: Millis, supplied: Option<int>)
    requires SingleActive(loans)
    ensures SingleActive(MarkReturned(loans, id, now, supplied))
  {
  }

  /** `issueBook` itself does not refuse a second active loan of the same book
      to the same borrower: only the catalog view's button does. */
  lemma IssueAllowsSecondActiveLoan(loans: seq<Loan>, i: nat, loanId: LoanId, now: Millis)
    requires i < |loans| && loans[i].status == Active
    ensures !SingleActive(loans + [NewLoan(loanId, loans[i].bookId, loans[i].userId, now)])
  {
    var r := loans + [NewLoan(loanId, loans[i].bookId, loans[i].userId, now)];
    assert r[i] == loans[i] && r[|loans|].status == Active;
  }

  /** The order of a user's loans is the ledger's order: a new loan of that
      user comes last. */
  lemma LoansOfUserAfterIssue(loans: seq<Loan>, l: Loan, userId: UserId)
    ensures LoansOfUser(loans + [l], userId) ==
            LoansOfUser(loans, userId) + if l.userId == userId then [l] else []
  {
    FilterAppend(loans, [l], ByUser(userId));
    assert [l][1..] == [];
  }

  // ---------------------------------------------------------------------------
  // The ledger

  class Library {
    var books: seq<Book>
    var loans: seq<Loan>

    /** Book ids are unique and loan ids are unique. */
    ghost predicate Valid()
      reads this
    {
      UniqueBy(books, BookKey) && UniqueBy(loans, LoanKey)
    }

    /** The collections as read back from storage. */
    constructor (initialBooks: seq<Book>, initialLoans: seq<Loan>)
      requires UniqueBy(initialBooks, BookKey) && UniqueBy(initialLoans, LoanKey)
      ensures Valid() && books == initialBooks && loans == initialLoans
    {
      books := initialBooks;
      loans := initialLoans;
    }

    /** Appends one book with the supplied fields and the fresh id `id`. */
    method AddBook(data: BookData, id: BookId)
      requires Valid() && id !in BookIds(books)
      modifies this
      ensures Valid()
      ensures books == old(books) + [WithId(data, id)]
      ensures loans == old(loans)
    {
      AppendUnique(books, WithId(data, id), BookKey);
      books := books + [WithId(data, id)];
    }

    /** Replaces the whole record of the book with `b`'s id; no-op for an unknown id. */
    method UpdateBook(b: Book)
      requires Valid()
      modifies this
      ensures Valid()
      ensures books == ReplaceBook(old(books), b)
      ensures b.id !in BookIds(old(books)) ==> books == old(books)
      ensures loans == old(loans)
    {
      ReplaceUnique(books, BookKey, b);
      ReplaceAbsent(books, BookKey, b);
      books := ReplaceBook(books, b);
    }

    /** Removes the books with that id and keeps the rest in order; loans are not
        looked at. */
    method DeleteBook(id: BookId)
      requires Valid()
      modifies this
      ensures Valid()
      ensures books == RemoveBook(old(books), id)
      ensures forall b :: b in books <==> b in old(books) && b.id != id
      ensures loans == old(loans)
    {
      FilterUnique(books, Without(id), BookKey);
      books := RemoveBook(books, id);
    }

    /** Lends a copy of `bookId` to `userId` at `now`, under the fresh loan id
        `loanId`; no-op when the book is missing or has no copy available. */
    method IssueBook(bookId: BookId, userId: UserId, now: Millis, loanId: LoanId)
      requires Valid() && loanId !in LoanIds(loans)
      modifies this
      ensures Valid()
      ensures var b := FindBook(old(books), bookId);
              if b.None? || b.value.available <= 0 then
                books == old(books) && loans == old(loans)
              else
                loans == old(loans) + [NewLoan(loanId, bookId, userId, now)] &&
                books == ReplaceBook(old(books), Restocked(b.value, -1))
    {
      var found := FindBook(books, bookId);
      if found.None? || found.value.available <= 0 {
        return;
      }
      var b := found.value;
      var b' := Restocked(b, -1);
      var loan := NewLoan(loanId, bookId, userId, now);
      assert UniqueBy(loans + [loan], LoanKey) by {
        AppendUnique(loans, loan, LoanKey);
      }
      assert UniqueBy(ReplaceBook(books, b'), BookKey) by {
        ReplaceUnique(books, BookKey, b');
      }
      loans := loans + [loan];
      books := ReplaceBook(books, b');
    }

    /** Sets the fine of the loan with that id and marks it overdue, whatever
        its status; no book changes; no-op for an unknown id. */
    method UpdateLoanFine(loanId: LoanId, fine: int)
      requires Valid()
      modifies this
      ensures Valid()
      ensures loans == AssessFine(old(loans), loanId, fine)
      ensures books == old(books)
    {
      AssessKeepsIds(loans, loanId, fine);
      loans := AssessFine(loans, loanId, fine);
    }

    /** Records the return of an active loan at `now` with the settled fine and
        puts the copy back; no-op when the loan is missing, not active, or its
        book is missing. */
    method ReturnBook(loanId: LoanId, fine: Option<int>, now: Millis)
      requires Valid()
      modifies this
      ensures Valid()
      ensures !Returnable(old(books), old(loans), loanId) ==> books == old(books) && loans == old(loans)
      ensures Returnable(old(books), old(loans), loanId) ==>
                loans == MarkReturned(old(loans), loanId, now, fine)
      ensures Returnable(old(books), old(loans), loanId) ==>
                books == ReplaceBook(old(books), Restocked(ReturnedBook(old(books), old(loans), loanId), 1))
    {
      var found := FindLoan(loans, loanId);
      if found.Some? && found.value.status == Active {
        var book := FindBook(books, found.value.bookId);
        if book.Some? {
          var b' := Restocked(book.value, 1);
          assert UniqueBy(MarkReturned(loans, loanId, now, fine), LoanKey) by {
            ReturnKeepsIds(loans, loanId, now, fine);
          }
          assert UniqueBy(ReplaceBook(books, b'), BookKey) by {
            ReplaceUnique(books, BookKey, b');
          }
          loans := MarkReturned(loans, loanId, now, fine);
          books := ReplaceBook(books, b');
        }
      }
    }

    /** `getUserLoans`: exactly the loans of that user, in ledger order. */
    function GetUserLoans(userId: UserId): (r: seq<Loan>)
      reads this
      ensures forall l :: l in r <==> l in loans && l.userId == userId
    {
      LoansOfUser(loans, userId)
    }

    /** `getBookById`: the first book with that id, if any. */
    function GetBookById(id: BookId): (r: Option<Book>)
      reads this
      ensures r.None? <==> forall b :: b in books ==> b.id != id
      ensures r.Some? ==> exists i :: 0 <= i < |books| && books[i] == r.value && r.value.id == id &&
                                       forall j :: 0 <= j < i ==> books[j].id != id
    {
      FindBook(books, id)
    }
  }

  /** Two calls of `issueBook` for the same borrower and book, on a book with at
      least two copies available, leave that borrower holding two active loans
      of it. */
  method IssueTwice(library: Library, bookId: BookId, userId: UserId, now: Millis,
                    first: LoanId, second: LoanId)
    requires library.Valid() && first != second
    requires first !in LoanIds(library.loans) && second !in LoanIds(library.loans)
    requires FindBook(library.books, bookId).Some? && FindBook(library.books, bookId).value.available >= 2
    modifies library
    ensures library.Valid() && !SingleActive(library.loans)
  {
    var b := FindBook(library.books, bookId).value;
    FindBookHasId(library.books, bookId);
    ghost var before := library.loans;
    library.IssueBook(bookId, userId, now, first);
    assert FindBook(library.books, bookId) == Some(Restocked(b, -1)) by {
      FindAfterReplace(old(library.books), BookKey, Restocked(b, -1), bookId);
    }
    assert second !in LoanIds(library.loans) by {
      assert forall x :: x in before + [NewLoan(first, bookId, userId, now)] ==>
                           x in before || x == NewLoan(first, bookId, userId, now);
    }
    ghost var middle := library.loans;
    library.IssueBook(bookId, userId, now, second);
    IssueAllowsSecondActiveLoan(middle, |before|, second, now);
  }

  lemma AssessKeepsIds(loans: seq<Loan>, id: LoanId, fine: int)
    requires UniqueBy(loans, LoanKey)
    ensures UniqueBy(AssessFine(loans, id, fine), LoanKey)
  {
  }

  lemma ReturnKeepsIds(loans: seq<Loan>, id: LoanId, now: Millis, supplied: Option<int>)
    requires UniqueBy(loans, LoanKey)
    ensures UniqueBy(MarkReturned(loans, id, now, supplied), LoanKey)
  {
  }
}
