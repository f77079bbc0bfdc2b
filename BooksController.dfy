/** Controllers/BooksController.cs: the book list with a book's authors,
    the edit form's author checkboxes, and the reconcile step that saves
    the authors ticked on that form. */
module BooksController {
  import opened Wrappers
  import opened Models
  import opened Decimal
  import opened Links
  import opened Store

  /** One author checkbox of the book edit form (BookCheckBoxViewModel). */
  datatype AuthorCheckBox = AuthorCheckBox(id: int, fullName: string, checked: bool)

  /** The data of the book list: every book and, when one is chosen, its
      authors (BookIndexData). */
  datatype BookIndexData = BookIndexData(books: seq<Book>, authors: Option<seq<Author>>)

  /** `BookAuthors.Select(s => s.Author)`: the author each row points at. */
  function AuthorsOf(authors: seq<Author>, rows: seq<BookAuthor>): (r: seq<Author>)
    requires forall row :: row in rows ==> row.authorId in AuthorIds(authors)
    ensures |r| == |rows|
    ensures forall i :: 0 <= i < |rows| ==> r[i] in authors && r[i].id == rows[i].authorId
  {
    if rows == [] then []
    else [FindAuthor(authors, rows[0].authorId).value] + AuthorsOf(authors, rows[1..])
  }

  /** `Index(id)`: all books; for an id, the one book with that id (through
      `Single()`, which throws unless exactly one book has it) and its
      authors in the order of its join rows. */
  function Index(books: seq<Book>, authors: seq<Author>, bookAuthors: seq<BookAuthor>, id: Option<int>): (r: Outcome<BookIndexData>)
    requires forall row :: row in bookAuthors ==> row.authorId in AuthorIds(authors)
    ensures id.None? ==> r == Done(BookIndexData(books, None))
    ensures id.Some? ==>
      (r.Done? <==> (exists k :: 0 <= k < |books| && books[k].id == id.value) &&
                    !(exists j, k :: 0 <= j < k < |books| && books[j].id == id.value && books[k].id == id.value))
    ensures r.Threw? ==> r.error == InvalidOperation
    ensures id.Some? && r.Done? ==>
      var rows := Owned(FromBook, bookAuthors, id.value);
      && r.value.books == books
      && r.value.authors.Some?
      && |r.value.authors.value| == |rows|
      && forall i :: 0 <= i < |rows| ==>
           r.value.authors.value[i] in authors && r.value.authors.value[i].id == rows[i].authorId
  {
    match id
    case None => Done(BookIndexData(books, None))
    case Some(i) =>
      var p := (b: Book) => b.id == i;
      WhereSingle(books, p);
      match Single(Where(books, p))
      case Threw(e) => Threw(e)
      case Done(book) =>
        Done(BookIndexData(books, Some(AuthorsOf(authors, Owned(FromBook, bookAuthors, book.id)))))
  }

  /** `PopulateAssignedAuthorData`: one checkbox per author, in table
      order, ticked exactly when the book's rows point at that author. */
  method PopulateAssignedAuthorData(ctx: BookContext, bookAuthors: seq<BookAuthor>) returns (viewModel: seq<AuthorCheckBox>)
    ensures |viewModel| == |ctx.authors|
    ensures forall i :: 0 <= i < |ctx.authors| ==>
      && viewModel[i].id == ctx.authors[i].id
      && viewModel[i].fullName == FullName(ctx.authors[i])
      && (viewModel[i].checked <==> ctx.authors[i].id in Others(FromBook, bookAuthors))
  {
    var authorBooks := Others(FromBook, bookAuthors);
    viewModel := [];
    var i := 0;
    while i < |ctx.authors|
      invariant 0 <= i <= |ctx.authors|
      invariant |viewModel| == i
      invariant forall k :: 0 <= k < i ==>
        viewModel[k] == AuthorCheckBox(ctx.authors[k].id, FullName(ctx.authors[k]), ctx.authors[k].id in authorBooks)
    {
      var author := ctx.authors[i];
      viewModel := viewModel + [AuthorCheckBox(author.id, FullName(author), author.id in authorBooks)];
      i := i + 1;
    }
  }

  /** Posting the edit form with the checkboxes as they were shown selects
      the authors the book already has, so the reconcile step appends and
      removes nothing. */
  lemma UnchangedFormKeepsAuthors(authors: seq<Author>, owner: int, bookAuthors: seq<BookAuthor>, viewModel: seq<AuthorCheckBox>)
    requires |viewModel| == |authors|
    requires forall i :: 0 <= i < |authors| ==>
      viewModel[i].id == authors[i].id && (viewModel[i].checked <==> authors[i].id in Others(FromBook, bookAuthors))
    ensures var sel := set c | c in viewModel && c.checked :: IntToString(c.id);
            && Additions(FromBook, owner, AuthorIds(authors), sel, Others(FromBook, bookAuthors)) == []
            && Removals(FromBook, bookAuthors, AuthorIds(authors), sel) == []
  {
    var ids := AuthorIds(authors);
    var have := Others(FromBook, bookAuthors);
    var sel := set c | c in viewModel && c.checked :: IntToString(c.id);
    var expected := set u | u in ids && u in have :: IntToString(u);
    forall s | s in sel ensures s in expected {
      var c :| c in viewModel && c.checked && s == IntToString(c.id);
      var i :| 0 <= i < |viewModel| && viewModel[i] == c;
      assert ids[i] == c.id;
    }
    forall s | s in expected ensures s in sel {
      var u :| u in ids && u in have && s == IntToString(u);
      var i :| 0 <= i < |ids| && ids[i] == u;
      assert viewModel[i] in viewModel;
    }
    UnchangedFormNoChange(FromBook, owner, bookAuthors, ids, sel);
  }

  /** `Edit(id)` (GET): NotFound without an id or without a book of that
      id; otherwise the book with its author checkboxes. */
  method EditGet(ctx: BookContext, id: Option<int>) returns (result: ActionResult<(Book, seq<AuthorCheckBox>)>)
    ensures id.None? ==> result == NotFound
    ensures id.Some? && FindBook(ctx.books, id.value).None? ==> result == NotFound
    ensures id.Some? && FindBook(ctx.books, id.value).Some? ==>
      && result.View?
      && result.model.0 == FindBook(ctx.books, id.value).value
      && |result.model.1| == |ctx.authors|
      && forall i :: 0 <= i < |ctx.authors| ==>
           && result.model.1[i].id == ctx.authors[i].id
           && result.model.1[i].fullName == FullName(ctx.authors[i])
           && (result.model.1[i].checked <==> ctx.authors[i].id in Associated(FromBook, ctx.bookAuthors, id.value))
  {
    if id.None? {
      return NotFound;
    }
    var found := FindBook(ctx.books, id.value);
    if found.None? {
      return NotFound;
    }
    var book := found.value;
    var rows := Owned(FromBook, ctx.bookAuthors, book.id);
    OwnedOthers(FromBook, ctx.bookAuthors, book.id);
    var viewModel := PopulateAssignedAuthorData(ctx, rows);
    return View((book, viewModel));
  }

  /** The `foreach` over all authors of `UpdateAuthorBooks`: a selected
      author the book lacks gets a new row appended to the book's
      collection; an unselected author the book has gets its first row
      passed to `Remove`. */
  method ApplySelection(ctx: BookContext, selectedAuthors: seq<string>, bookToUpdate: TrackedBook)
    modifies bookToUpdate, ctx`removed
    ensures bookToUpdate.bookAuthors == old(bookToUpdate.bookAuthors) +
      Additions(FromBook, bookToUpdate.book.id, AuthorIds(ctx.authors), SelectionSet(selectedAuthors),
                Others(FromBook, old(bookToUpdate.bookAuthors)))
    ensures ctx.removed == old(ctx.removed) +
      Removals(FromBook, old(bookToUpdate.bookAuthors), AuthorIds(ctx.authors), SelectionSet(selectedAuthors))
  {
    var selectedAuthorsHS := SelectionSet(selectedAuthors);
    var authorBooks := Others(FromBook, bookToUpdate.bookAuthors);
    ghost var nav0 := bookToUpdate.bookAuthors;
    ghost var removed0 := ctx.removed;
    ghost var ids := AuthorIds(ctx.authors);
    var i := 0;
    while i < |ctx.authors|
      invariant 0 <= i <= |ctx.authors|
      invariant bookToUpdate.bookAuthors ==
        nav0 + Additions(FromBook, bookToUpdate.book.id, ids[..i], selectedAuthorsHS, authorBooks)
      invariant ctx.removed == removed0 + Removals(FromBook, nav0, ids[..i], selectedAuthorsHS)
    {
      var author := ctx.authors[i];
      assert ids[..i + 1][..i] == ids[..i] && ids[..i + 1][i] == author.id;
      if IntToString(author.id) in selectedAuthorsHS {
        if author.id !in authorBooks {
          bookToUpdate.bookAuthors := bookToUpdate.bookAuthors + [BookAuthor(bookToUpdate.book.id, author.id)];
        }
      } else if author.id in authorBooks {
        FirstWithAppend(FromBook, nav0,
          Additions(FromBook, bookToUpdate.book.id, ids[..i], selectedAuthorsHS, authorBooks), author.id);
        var bookToRemove := FirstWith(FromBook, bookToUpdate.bookAuthors, author.id);
        ctx.removed := ctx.removed + [bookToRemove.value];
      }
      i := i + 1;
    }
    assert ids[..i] == ids;
  }

  /** `UpdateAuthorBooks` as written: its guard tests the book instead of
      the selection, then uses the null book; a null selection reaches the
      `HashSet` constructor. Either throws before anything changes. */
  method UpdateAuthorBooksAsWritten(ctx: BookContext, selectedAuthors: Option<seq<string>>, bookToUpdate: TrackedBook?)
    returns (fault: Option<Exception>)
    modifies bookToUpdate, ctx`removed
    ensures bookToUpdate == null ==> fault == Some(NullReference) && ctx.removed == old(ctx.removed)
    ensures bookToUpdate != null && selectedAuthors.None? ==>
      && fault == Some(ArgumentNull)
      && ctx.removed == old(ctx.removed)
      && bookToUpdate.bookAuthors == old(bookToUpdate.bookAuthors)
    ensures bookToUpdate != null && selectedAuthors.Some? ==>
      && fault == None
      && bookToUpdate.bookAuthors == old(bookToUpdate.bookAuthors) +
           Additions(FromBook, bookToUpdate.book.id, AuthorIds(ctx.authors), SelectionSet(selectedAuthors.value),
                     Others(FromBook, old(bookToUpdate.bookAuthors)))
      && ctx.removed == old(ctx.removed) +
           Removals(FromBook, old(bookToUpdate.bookAuthors), AuthorIds(ctx.authors), SelectionSet(selectedAuthors.value))
  {
    if bookToUpdate == null {
      // `bookToUpdate.BookAuthors = ...` on the null book
      return Some(NullReference);
    }
    if selectedAuthors.None? {
      // `new HashSet<string>(null)`
      return Some(ArgumentNull);
    }
    ApplySelection(ctx, selectedAuthors.value, bookToUpdate);
    return None;
  }

  /** `UpdateAuthorBooks` with the guard testing the selection, as the
      authors' copy does: a missing selection empties the book's
      collection; otherwise the selection is applied. */
  method UpdateAuthorBooks(ctx: BookContext, selectedAuthors: Option<seq<string>>, bookToUpdate: TrackedBook)
    modifies bookToUpdate, ctx`removed
    ensures selectedAuthors.None? ==> bookToUpdate.bookAuthors == [] && ctx.removed == old(ctx.removed)
    ensures selectedAuthors.Some? ==>
      && bookToUpdate.bookAuthors == old(bookToUpdate.bookAuthors) +
           Additions(FromBook, bookToUpdate.book.id, AuthorIds(ctx.authors), SelectionSet(selectedAuthors.value),
                     Others(FromBook, old(bookToUpdate.bookAuthors)))
      && ctx.removed == old(ctx.removed) +
           Removals(FromBook, old(bookToUpdate.bookAuthors), AuthorIds(ctx.authors), SelectionSet(selectedAuthors.value))
  {
    if selectedAuthors.None? {
      bookToUpdate.bookAuthors := [];
      return;
    }
    ApplySelection(ctx, selectedAuthors.value, bookToUpdate);
  }

  /** The reconcile-and-save step of the POST action: reconcile the loaded book's
      collection with the selection, then save. */
  method ReconcileAndSave(ctx: BookContext, selectedAuthors: Option<seq<string>>, bookToUpdate: TrackedBook)
    requires ctx.Valid() && ctx.removed == []
    requires bookToUpdate.book.id in BookIds(ctx.books)
    requires bookToUpdate.bookAuthors == Owned(FromBook, ctx.bookAuthors, bookToUpdate.book.id)
    modifies ctx, bookToUpdate
    ensures ctx.authors == old(ctx.authors) && ctx.books == old(ctx.books) && ctx.removed == []
    ensures ctx.Valid()
    ensures Associated(FromBook, ctx.bookAuthors, bookToUpdate.book.id) ==
      (if selectedAuthors.None? then {}
       else Selected(AuthorIds(ctx.authors), SelectionSet(selectedAuthors.value)))
    ensures forall r: BookAuthor :: r.bookId != bookToUpdate.book.id ==>
      (r in ctx.bookAuthors <==> r in old(ctx.bookAuthors))
  {
    var owner := bookToUpdate.book.id;
    ghost var table := ctx.bookAuthors;
    ghost var nav := bookToUpdate.bookAuthors;
    if selectedAuthors.Some? {
      ghost var sel := SelectionSet(selectedAuthors.value);
      ghost var ids := AuthorIds(ctx.authors);
      ReconcileCommitted(FromBook, owner, ctx.authors, ctx.books, table, sel);
      UpdateAuthorBooks(ctx, selectedAuthors, bookToUpdate);
      assert ctx.removed == Removals(FromBook, nav, ids, sel);
      assert bookToUpdate.bookAuthors == nav + Additions(FromBook, owner, ids, sel, Others(FromBook, nav));
    } else {
      ClearCommitted(FromBook, owner, ctx.authors, ctx.books, table);
      UpdateAuthorBooks(ctx, selectedAuthors, bookToUpdate);
      assert ctx.removed == [] && bookToUpdate.bookAuthors == [];
    }
    ctx.SaveChanges(FromBook, owner, bookToUpdate.bookAuthors);
  }

  /** `Edit(id, selectedAuthors)` (POST). Without an id: NotFound and no
      change. Without a book of that id, model binding is handed a null
      book and throws. When binding fails the form is shown again and
      nothing is saved. Otherwise the selection is reconciled and saved:
      the book then has exactly the selected authors, the database's
      constraints still hold and no other book's rows change. */
  method EditPost(ctx: BookContext, id: Option<int>, selectedAuthors: Option<seq<string>>, bindingSucceeded: bool)
    returns (result: ActionResult<()>)
    requires ctx.Valid() && ctx.removed == []
    modifies ctx
    ensures ctx.authors == old(ctx.authors) && ctx.books == old(ctx.books) && ctx.removed == []
    ensures id.None? ==> result == NotFound && ctx.bookAuthors == old(ctx.bookAuthors)
    ensures id.Some? && FindBook(ctx.books, id.value).None? ==>
      result == Failed(ArgumentNull) && ctx.bookAuthors == old(ctx.bookAuthors)
    ensures id.Some? && FindBook(ctx.books, id.value).Some? && !bindingSucceeded ==>
      result == View(()) && ctx.bookAuthors == old(ctx.bookAuthors)
    ensures id.Some? && FindBook(ctx.books, id.value).Some? && bindingSucceeded ==>
      && result == RedirectToIndex
      && ctx.Valid()
      && Associated(FromBook, ctx.bookAuthors, id.value) ==
           (if selectedAuthors.None? then {}
            else Selected(AuthorIds(ctx.authors), SelectionSet(selectedAuthors.value)))
      && forall r: BookAuthor :: r.bookId != id.value ==> (r in ctx.bookAuthors <==> r in old(ctx.bookAuthors))
  {
    if id.None? {
      return NotFound;
    }
    var found := FindBook(ctx.books, id.value);
    if found.None? {
      return Failed(ArgumentNull);
    }
    var bookToUpdate := new TrackedBook(found.value, Owned(FromBook, ctx.bookAuthors, id.value));
    if !bindingSucceeded {
      return View(());
    }
    ReconcileAndSave(ctx, selectedAuthors, bookToUpdate);
    return RedirectToIndex;
  }
}
