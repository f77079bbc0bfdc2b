/** Controllers/AuthorsController.cs: the author list and details with an
    author's books, the edit form's book checkboxes, and the reconcile
    step that saves the books ticked on that form. */
module AuthorsController {
  import opened Wrappers
  import opened Models
  import opened Decimal
  import opened Links
  import opened Store

  /** One book checkbox of the author edit form (CheckBoxViewModel). */
  datatype BookCheckBox = BookCheckBox(id: int, title: string, checked: bool)

  /** The data of the author list and details: the authors listed and, when
      one is chosen, its books (AuthorIndexData). */
  datatype AuthorIndexData = AuthorIndexData(authors: seq<Author>, books: Option<seq<Book>>)

  /** `BookAuthors.Select(s => s.Book)`: the book each row points at. */
  function BooksOf(books: seq<Book>, rows: seq<BookAuthor>): (r: seq<Book>)
    requires forall row :: row in rows ==> row.bookId in BookIds(books)
    ensures |r| == |rows|
    ensures forall i :: 0 <= i < |rows| ==> r[i] in books && r[i].id == rows[i].bookId
  {
    if rows == [] then []
    else [FindBook(books, rows[0].bookId).value] + BooksOf(books, rows[1..])
  }

  /** `Index(id)`: all authors; for an id, the one author with that id
      (through `Single()`, which throws unless exactly one author has it)
      and its books in the order of its join rows. */
  function Index(authors: seq<Author>, books: seq<Book>, bookAuthors: seq<BookAuthor>, id: Option<int>): (r: Outcome<AuthorIndexData>)
    requires forall row :: row in bookAuthors ==> row.bookId in BookIds(books)
    ensures id.None? ==> r == Done(AuthorIndexData(authors, None))
    ensures id.Some? ==>
      (r.Done? <==> (exists k :: 0 <= k < |authors| && authors[k].id == id.value) &&
                    !(exists j, k :: 0 <= j < k < |authors| && authors[j].id == id.value && authors[k].id == id.value))
    ensures r.Threw? ==> r.error == InvalidOperation
    ensures id.Some? && r.Done? ==>
      var rows := Owned(FromAuthor, bookAuthors, id.value);
      && r.value.authors == authors
      && r.value.books.Some?
      && |r.value.books.value| == |rows|
      && forall i :: 0 <= i < |rows| ==>
           r.value.books.value[i] in books && r.value.books.value[i].id == rows[i].bookId
  {
    match id
    case None => Done(AuthorIndexData(authors, None))
    case Some(i) =>
      var p := (a: Author) => a.id == i;
      WhereSingle(authors, p);
      match Single(Where(authors, p))
      case Threw(e) => Threw(e)
      case Done(author) =>
        Done(AuthorIndexData(authors, Some(BooksOf(books, Owned(FromAuthor, bookAuthors, author.id)))))
  }

  /** `Details(id)`: the authors with that id (none without an id), and,
      as in `Index`, the one author's books through `Single()`. */
  function Details(authors: seq<Author>, books: seq<Book>, bookAuthors: seq<BookAuthor>, id: Option<int>): (r: Outcome<AuthorIndexData>)
    requires forall row :: row in bookAuthors ==> row.bookId in BookIds(books)
    ensures id.None? ==> r == Done(AuthorIndexData([], None))
    ensures id.Some? && r.Done? ==> forall a :: a in r.value.authors <==> a in authors && a.id == id.value
    ensures id.Some? ==>
      && (r.Done? <==> Index(authors, books, bookAuthors, id).Done?)
      && (r.Done? ==> r.value.books == Index(authors, books, bookAuthors, id).value.books)
      && (r.Threw? ==> r == Index(authors, books, bookAuthors, id))
  {
    match id
    case None => Done(AuthorIndexData([], None))
    case Some(i) =>
      var p := (a: Author) => a.id == i;
      var matching := Where(authors, p);
      WhereTwice(authors, p);
      match Single(Where(matching, p))
      case Threw(e) => Threw(e)
      case Done(author) =>
        Done(AuthorIndexData(matching, Some(BooksOf(books, Owned(FromAuthor, bookAuthors, author.id)))))
  }

  /** `PopulateAssignedBookData`: one checkbox per book, in table order,
      ticked exactly when the author's rows point at that book. */
  method PopulateAssignedBookData(ctx: BookContext, bookAuthors: seq<BookAuthor>) returns (viewModel: seq<BookCheckBox>)
    ensures |viewModel| == |ctx.books|
    ensures forall i :: 0 <= i < |ctx.books| ==>
      && viewModel[i].id == ctx.books[i].id
      && viewModel[i].title == ctx.books[i].title
      && (viewModel[i].checked <==> ctx.books[i].id in Others(FromAuthor, bookAuthors))
  {
    var authorBooks := Others(FromAuthor, bookAuthors);
    viewModel := [];
    var i := 0;
    while i < |ctx.books|
      invariant 0 <= i <= |ctx.books|
      invariant |viewModel| == i
      invariant forall k :: 0 <= k < i ==>
        viewModel[k] == BookCheckBox(ctx.books[k].id, ctx.books[k].title, ctx.books[k].id in authorBooks)
    {
      var book := ctx.books[i];
      viewModel := viewModel + [BookCheckBox(book.id, book.title, book.id in authorBooks)];
      i := i + 1;
    }
  }

  /** Posting the edit form with the checkboxes as they were shown selects
      the books the author already has, so the reconcile step appends and
      removes nothing. */
  lemma UnchangedFormKeepsBooks(books: seq<Book>, owner: int, bookAuthors: seq<BookAuthor>, viewModel: seq<BookCheckBox>)
    requires |viewModel| == |books|
    requires forall i :: 0 <= i < |books| ==>
      viewModel[i].id == books[i].id && (viewModel[i].checked <==> books[i].id in Others(FromAuthor, bookAuthors))
    ensures var sel := set c | c in viewModel && c.checked :: IntToString(c.id);
            && Additions(FromAuthor, owner, BookIds(books), sel, Others(FromAuthor, bookAuthors)) == []
            && Removals(FromAuthor, bookAuthors, BookIds(books), sel) == []
  {
    var ids := BookIds(books);
    var have := Others(FromAuthor, bookAuthors);
    var sel := set c | c in viewModel && c.checked :: IntToString(c.id);
    var expected := set u | u in ids && u in have :: IntToString(u);
    forall s | s in sel ensures s in expected {
      var c :| c in viewModel && c.checked && s == IntToString(c.id);
      var i :| 0 <= i < |viewModel| && viewModel[i] == c;
      assert ids[i] == c.id;
    }
    forall s | s in expected ensures s in sel {
      var u :| u in ids && u in have && s == IntToString(u);
      var i :| 0 <= i < |ids| && ids[i] == u;
      assert viewModel[i] in viewModel;
    }
    UnchangedFormNoChange(FromAuthor, owner, bookAuthors, ids, sel);
  }

  /** `Edit(id)` (GET): NotFound without an id or without an author of
      that id; otherwise the author with its book checkboxes. */
  method EditGet(ctx: BookContext, id: Option<int>) returns (result: ActionResult<(Author, seq<BookCheckBox>)>)
    ensures id.None? ==> result == NotFound
    ensures id.Some? && FindAuthor(ctx.authors, id.value).None? ==> result == NotFound
    ensures id.Some? && FindAuthor(ctx.authors, id.value).Some? ==>
      && result.View?
      && result.model.0 == FindAuthor(ctx.authors, id.value).value
      && |result.model.1| == |ctx.books|
      && forall i :: 0 <= i < |ctx.books| ==>
           && result.model.1[i].id == ctx.books[i].id
           && result.model.1[i].title == ctx.books[i].title
           && (result.model.1[i].checked <==> ctx.books[i].id in Associated(FromAuthor, ctx.bookAuthors, id.value))
  {
    if id.None? {
      return NotFound;
    }
    var found := FindAuthor(ctx.authors, id.value);
    if found.None? {
      return NotFound;
    }
    var author := found.value;
    var rows := Owned(FromAuthor, ctx.bookAuthors, author.id);
    OwnedOthers(FromAuthor, ctx.bookAuthors, author.id);
    var viewModel := PopulateAssignedBookData(ctx, rows);
    return View((author, viewModel));
  }

  /** The `foreach` over all books of `UpdateAuthorBooks`: a selected book
      the author lacks gets a new row appended to the author's collection;
      an unselected book the author has gets its first row passed to
      `Remove`. */
  method ApplySelection(ctx: BookContext, selectedBooks: seq<string>, authorToUpdate: TrackedAuthor)
    modifies authorToUpdate, ctx`removed
    ensures authorToUpdate.bookAuthors == old(authorToUpdate.bookAuthors) +
      Additions(FromAuthor, authorToUpdate.author.id, BookIds(ctx.books), SelectionSet(selectedBooks),
                Others(FromAuthor, old(authorToUpdate.bookAuthors)))
    ensures ctx.removed == old(ctx.removed) +
      Removals(FromAuthor, old(authorToUpdate.bookAuthors), BookIds(ctx.books), SelectionSet(selectedBooks))
  {
    var selectedBooksHS := SelectionSet(selectedBooks);
    var authorBooks := Others(FromAuthor, authorToUpdate.bookAuthors);
    ghost var nav0 := authorToUpdate.bookAuthors;
    ghost var removed0 := ctx.removed;
    ghost var ids := BookIds(ctx.books);
    var i := 0;
    while i < |ctx.books|
      invariant 0 <= i <= |ctx.books|
      invariant authorToUpdate.bookAuthors ==
        nav0 + Additions(FromAuthor, authorToUpdate.author.id, ids[..i], selectedBooksHS, authorBooks)
      invariant ctx.removed == removed0 + Removals(FromAuthor, nav0, ids[..i], selectedBooksHS)
    {
      var book := ctx.books[i];
      assert ids[..i + 1][..i] == ids[..i] && ids[..i + 1][i] == book.id;
      if IntToString(book.id) in selectedBooksHS {
        if book.id !in authorBooks {
          authorToUpdate.bookAuthors := authorToUpdate.bookAuthors + [BookAuthor(book.id, authorToUpdate.author.id)];
        }
      } else if book.id in authorBooks {
        FirstWithAppend(FromAuthor, nav0,
          Additions(FromAuthor, authorToUpdate.author.id, ids[..i], selectedBooksHS, authorBooks), book.id);
        var bookToRemove := FirstWith(FromAuthor, authorToUpdate.bookAuthors, book.id);
        ctx.removed := ctx.removed + [bookToRemove.value];
      }
      i := i + 1;
    }
    assert ids[..i] == ids;
  }

  /** `UpdateAuthorBooks`: a missing selection replaces the author's
      collection with an empty list and passes nothing to `Remove`;
      otherwise the selection is applied. */
  method UpdateAuthorBooks(ctx: BookContext, selectedBooks: Option<seq<string>>, authorToUpdate: TrackedAuthor)
    modifies authorToUpdate, ctx`removed
    ensures selectedBooks.None? ==> authorToUpdate.bookAuthors == [] && ctx.removed == old(ctx.removed)
    ensures selectedBooks.Some? ==>
      && authorToUpdate.bookAuthors == old(authorToUpdate.bookAuthors) +
           Additions(FromAuthor, authorToUpdate.author.id, BookIds(ctx.books), SelectionSet(selectedBooks.value),
                     Others(FromAuthor, old(authorToUpdate.bookAuthors)))
      && ctx.removed == old(ctx.removed) +
           Removals(FromAuthor, old(authorToUpdate.bookAuthors), BookIds(ctx.books), SelectionSet(selectedBooks.value))
  {
    if selectedBooks.None? {
      authorToUpdate.bookAuthors := [];
      return;
    }
    ApplySelection(ctx, selectedBooks.value, authorToUpdate);
  }

  /** The reconcile-and-save step of the POST action: reconcile the loaded author's
      collection with the selection, then save. */
  method ReconcileAndSave(ctx: BookContext, selectedBooks: Option<seq<string>>, authorToUpdate: TrackedAuthor)
    requires ctx.Valid() && ctx.removed == []
    requires authorToUpdate.author.id in AuthorIds(ctx.authors)
    requires authorToUpdate.bookAuthors == Owned(FromAuthor, ctx.bookAuthors, authorToUpdate.author.id)
    modifies ctx, authorToUpdate
    ensures ctx.authors == old(ctx.authors) && ctx.books == old(ctx.books) && ctx.removed == []
    ensures ctx.Valid()
    ensures Associated(FromAuthor, ctx.bookAuthors, authorToUpdate.author.id) ==
      (if selectedBooks.None? then {}
       else Selected(BookIds(ctx.books), SelectionSet(selectedBooks.value)))
    ensures forall r: BookAuthor :: r.authorId != authorToUpdate.author.id ==>
      (r in ctx.bookAuthors <==> r in old(ctx.bookAuthors))
  {
    var owner := authorToUpdate.author.id;
    ghost var table := ctx.bookAuthors;
    ghost var nav := authorToUpdate.bookAuthors;
    if selectedBooks.Some? {
      ghost var sel := SelectionSet(selectedBooks.value);
      ghost var ids := BookIds(ctx.books);
      ReconcileCommitted(FromAuthor, owner, ctx.authors, ctx.books, table, sel);
      UpdateAuthorBooks(ctx, selectedBooks, authorToUpdate);
      assert ctx.removed == Removals(FromAuthor, nav, ids, sel);
      assert authorToUpdate.bookAuthors == nav + Additions(FromAuthor, owner, ids, sel, Others(FromAuthor, nav));
    } else {
      ClearCommitted(FromAuthor, owner, ctx.authors, ctx.books, table);
      UpdateAuthorBooks(ctx, selectedBooks, authorToUpdate);
      assert ctx.removed == [] && authorToUpdate.bookAuthors == [];
    }
    ctx.SaveChanges(FromAuthor, owner, authorToUpdate.bookAuthors);
  }

  /** `Edit(id, selectedBooks)` (POST). Without an id: NotFound and no
      change. Without an author of that id, model binding is handed a null
      author and throws. When binding fails the form is shown again and
      nothing is saved. Otherwise the selection is reconciled and saved:
      the author then has exactly the selected books (none when the
      selection is missing), the database's constraints still hold and no
      other author's rows change. */
  method EditPost(ctx: BookContext, id: Option<int>, selectedBooks: Option<seq<string>>, bindingSucceeded: bool)
    returns (result: ActionResult<()>)
    requires ctx.Valid() && ctx.removed == []
    modifies ctx
    ensures ctx.authors == old(ctx.authors) && ctx.books == old(ctx.books) && ctx.removed == []
    ensures id.None? ==> result == NotFound && ctx.bookAuthors == old(ctx.bookAuthors)
    ensures id.Some? && FindAuthor(ctx.authors, id.value).None? ==>
      result == Failed(ArgumentNull) && ctx.bookAuthors == old(ctx.bookAuthors)
    ensures id.Some? && FindAuthor(ctx.authors, id.value).Some? && !bindingSucceeded ==>
      result == View(()) && ctx.bookAuthors == old(ctx.bookAuthors)
    ensures id.Some? && FindAuthor(ctx.authors, id.value).Some? && bindingSucceeded ==>
      && result == RedirectToIndex
      && ctx.Valid()
      && Associated(FromAuthor, ctx.bookAuthors, id.value) ==
           (if selectedBooks.None? then {}
            else Selected(BookIds(ctx.books), SelectionSet(selectedBooks.value)))
      && forall r: BookAuthor :: r.authorId != id.value ==> (r in ctx.bookAuthors <==> r in old(ctx.bookAuthors))
  {
    if id.None? {
      return NotFound;
    }
    var found := FindAuthor(ctx.authors, id.value);
    if found.None? {
      return Failed(ArgumentNull);
    }
    var authorToUpdate := new TrackedAuthor(found.value, Owned(FromAuthor, ctx.bookAuthors, id.value));
    if !bindingSucceeded {
      return View(());
    }
    ReconcileAndSave(ctx, selectedBooks, authorToUpdate);
    return RedirectToIndex;
  }
}
