/** The administrator's add/edit book form: the draft record, the book being
    edited, and what a submit sends to the ledger. */
module BookManagement {

  import opened Wrappers
  import opened Types
  import opened LibraryContext

  /** The form's initial and reset state: empty strings, one copy, one available. */
  const EMPTY_FORM: BookData := BookData("", "", 1, 1, "", "")

  /** The text inputs of the form. */
  datatype TextField = Title | Author | Isbn | CoverUrl

  /** `setNewBook({ ...newBook, [field]: value })` for a text input. */
  function WithText(form: BookData, field: TextField, value: string): (r: BookData)
    ensures r.quantity == form.quantity && r.available == form.available
    ensures r.title == (if field == Title then value else form.title)
    ensures r.author == (if field == Author then value else form.author)
    ensures r.isbn == (if field == Isbn then value else form.isbn)
    ensures r.coverUrl == (if field == CoverUrl then value else form.coverUrl)
  {
    match field
    case Title => form.(title := value)
    case Author => form.(author := value)
    case Isbn => form.(isbn := value)
    case CoverUrl => form.(coverUrl := value)
  }

  /** `{ ...editingBook, ...newBook }`: every form field overrides the edited
      book's; only its id survives. */
  function Merge(editing: Book, form: BookData): (r: Book)
    ensures r.id == editing.id && Fields(r) == form
  {
    WithId(form, editing.id)
  }

  /** "Edit" does not load the book into the form: the record a submit sends
      depends on the edited book through its id alone. */
  lemma MergeIgnoresEditedFields(b1: Book, b2: Book, form: BookData)
    requires b1.id == b2.id
    ensures Merge(b1, form) == Merge(b2, form)
  {
  }

  class BookForm {
    var form: BookData
    var editing: Option<Book>

    /** The quantity input sets both counts, so they always agree. */
    ghost predicate Valid()
      reads this
    {
      form.quantity == form.available
    }

    constructor ()
      ensures Valid() && form == EMPTY_FORM && editing == None
    {
      form := EMPTY_FORM;
      editing := None;
    }

    method ChangeText(field: TextField, value: string)
      requires Valid()
      modifies this
      ensures Valid()
      ensures form == WithText(old(form), field, value) && editing == old(editing)
    {
      form := WithText(form, field, value);
    }

    /** The quantity input sets `quantity` and `available` to the same value. */
    method ChangeQuantity(quantity: int)
      modifies this
      ensures Valid()
      ensures form == old(form).(quantity := quantity, available := quantity) && editing == old(editing)
    {
      form := form.(quantity := quantity, available := quantity);
    }

    /** "Edit" remembers the book and leaves the form as it is. */
    method Edit(b: Book)
      requires Valid()
      modifies this
      ensures Valid()
      ensures editing == Some(b) && form == old(form)
    {
      editing := Some(b);
    }

    /** "Cancel" forgets the edited book and resets the form. */
    method Cancel()
      modifies this
      ensures Valid()
      ensures editing == None && form == EMPTY_FORM
    {
      editing := None;
      form := EMPTY_FORM;
    }

    /** `handleSubmit`: update the edited book with the form's fields, or add a
        new book under the fresh id `newId`; then reset. */
    method Submit(library: Library, newId: BookId)
      requires Valid() && library.Valid()
      requires editing.None? ==> newId !in BookIds(library.books)
      modifies this, library
      ensures Valid() && library.Valid()
      ensures old(editing).Some? ==>
                library.books == ReplaceBook(old(library.books), Merge(old(editing).value, old(form)))
      ensures old(editing).None? ==>
                library.books == old(library.books) + [WithId(old(form), newId)]
      ensures library.loans == old(library.loans)
      ensures editing == None && form == EMPTY_FORM
    {
      if editing.Some? {
        library.UpdateBook(Merge(editing.value, form));
        editing := None;
      } else {
        library.AddBook(form, newId);
      }
      form := EMPTY_FORM;
    }
  }

  /** A book the form adds or updates has as many copies available as it has
      copies: an edit resets `available` whatever is out on loan. */
  lemma SubmittedBookFullyAvailable(editing: Option<Book>, form: BookData, newId: BookId)
    requires form.quantity == form.available
    ensures var b := if editing.Some? then Merge(editing.value, form) else WithId(form, newId);
            b.available == b.quantity
  {
  }
}
