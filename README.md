# Book management: the book–author relationship, verified

A model, in Dafny, of the part of the book management web application that
keeps the many-to-many relationship between books and authors: the
`BookAuthor` join table, the two reconcile steps (`UpdateAuthorBooks` in
`BooksController` and in `AuthorsController`) that turn the checkboxes of an
edit form into appended and removed join rows, the builders of those
checkboxes, the list and details lookups that show an entity's
counterparts, and the computed `Author.FullName`.

Modules, one per concern:

- `Wrappers`: `Option`, for C#'s nullable values.
- `Models`: the entities `Author`, `Book`, `Publisher`, `BookAuthor` and the
  `Category` enum as plain values; `FullName` and its inverse `SplitFullName`.
- `Decimal`: `Int32.ToString()` as `IntToString`, and `DigitsValue`, the number a
  digit string denotes, to state what it writes. The reconcilers compare ids
  with the submitted strings through it.
- `Links`: the join table seen from the edited entity (`Side`: a book's
  authors or an author's books). It holds the specification of the reconcile
  step: `Additions`, the rows appended, and `Removals`, the rows passed to
  `Remove`, both in universe order. `Committed` gives the table after
  `SaveChanges`. It also holds the lemmas: exact association after commit,
  idempotence, no duplicate pairs, unknown strings ignored, order.
- `Store`: the database context as a class (`BookContext`). Its
  `bookAuthors` and pending `removed` rows are fields that the methods
  reassign. The database constraints are `ValidTables`. The entities loaded
  for editing are `TrackedBook` and `TrackedAuthor`, each with a
  `bookAuthors` list that is edited in place. The LINQ operators used are
  `Where`, `Single` and `FirstOrDefault`.
- `BooksController`, `AuthorsController`: the actions, as methods over the
  context (loops stay loops) and as functions (the LINQ lookups).

The reconcile loops are proved against `Links.Additions` and `Links.Removals`.
The edit actions are proved end to end: after a successful POST, the
entity's associated ids are exactly the universe ids whose decimal text was
submitted, or none when the selection is missing (for `BooksController`,
with the corrected guard; see Findings). The database constraints
still hold, and no other entity's join rows change.

Two details of the code that the model keeps:

- Only `AuthorsController`'s copy of `UpdateAuthorBooks` clears the
  collection when the selection is missing. `BooksController`'s copy tests
  the wrong variable (see Findings).
- `Remove` receives the first row of the collection with that counterpart
  id (`FirstOrDefault`).

## Model

| member | source | states |
|---|---|---|
| Models.FullName | Models/Author.cs:21-27 | the full name is the last name, then ", ", then the first name; its length is the sum of both lengths plus 2 |
| Models.FullNameRoundTrip | Models/Author.cs:25 | when the last name has no comma, splitting the full name at its first ", " gives back the last and first names; any text that splits this way is the full name of its parts |
| Decimal.IntToString | Controllers/BooksController.cs:177 | `Id.ToString()` is non-empty and starts with '-' exactly for negative ids |
| Decimal.IntToStringValue | Controllers/BooksController.cs:177 | `Id.ToString()` writes the id's value: for a non-negative id, digits whose decimal value is the id; for a negative id, '-' then digits whose value is minus the id; no leading zero except in "0" |
| Decimal.IntToStringInjective | Controllers/BooksController.cs:177 | different ids have different decimal texts |
| Decimal.LeadingZeroIsNoId | Controllers/BooksController.cs:177 | a text of two or more characters starting with '0' (such as "02") is the `ToString()` of no id |
| Links.Link | Controllers/BooksController.cs:181 | a new join row belongs to the edited entity and points at the chosen counterpart |
| Links.FirstWith | Controllers/BooksController.cs:188 | `FirstOrDefault` finds a row exactly when some row points at the id, and then it finds the first such row |
| Links.FirstWithAppend | Controllers/BooksController.cs:181-188 | rows appended earlier in the loop never change which row `FirstOrDefault` finds for an id that was already associated |
| Links.Owned | Controllers/BooksController.cs:145-148 | the collection loaded for an entity holds exactly its rows of the table, with no repeats when the table has none |
| Links.OwnedOthers | Controllers/BooksController.cs:115 | the ids in the loaded collection are exactly the ids the entity is associated with in the table |
| Links.Kept | Controllers/BooksController.cs:157 | the stored rows that survive `SaveChanges` are those not removed and, for the edited entity, still in its collection |
| Links.Inserted | Controllers/BooksController.cs:157 | `SaveChanges` inserts the rows of the collection that are neither stored nor removed |
| Links.Committed | Controllers/BooksController.cs:157 | after `SaveChanges`, the edited entity's rows are the rows of its collection that were not removed; another entity's row stays exactly when it was stored and not removed, or is a new row of the collection |
| Links.AdditionsSpec | Controllers/BooksController.cs:175-183 | every appended row belongs to the edited entity, and the appended rows point exactly at the universe ids that are selected and not yet associated |
| Links.AdditionsUnique | Controllers/BooksController.cs:175-183 | with distinct universe ids, no two appended rows point at the same counterpart |
| Links.NoDuplicatePairs | Controllers/BooksController.cs:177-182 | a selected counterpart that is already associated gets no new row, so the collection with the appended rows repeats no pair |
| Links.AdditionsInOrder | Controllers/BooksController.cs:175-181 | rows are appended in universe order: the rows for two parts of the universe are those of the first part, then those of the second |
| Links.RemovalsSpec | Controllers/BooksController.cs:184-191 | every row passed to `Remove` is a row of the collection, and these rows point exactly at the universe ids that are associated and not selected |
| Links.RemovalsUnique | Controllers/BooksController.cs:186-190 | with distinct universe ids, each deselected associated counterpart has exactly one row passed to `Remove` |
| Links.RemovalsInOrder | Controllers/BooksController.cs:175-190 | rows are passed to `Remove` in universe order |
| Links.CommitAssociates | Controllers/BooksController.cs:157 | after the commit, the edited entity is associated with the counterparts of the collection's rows that were not removed |
| Links.ReconcileAssociates | Controllers/BooksController.cs:172-192 | after the appends, the removals and the commit, the entity is associated with exactly {u in universe : ToString(u) is in the selection} |
| Links.InSyncNoChange | Controllers/BooksController.cs:175-192 | when the selection already agrees with the association on every universe id, nothing is appended and nothing is removed |
| Links.ReconcileIdempotent | Controllers/AuthorsController.cs:161-181 | reloading after the commit and reconciling again with the same selection appends nothing and removes nothing |
| Links.UnknownIgnored | Controllers/AuthorsController.cs:164-181 | a submitted string that is the text of no universe id changes neither the appended nor the removed rows |
| Links.LeadingZeroIgnored | Controllers/BooksController.cs:175-177 | a submitted "02" (any text with a leading zero) changes nothing |
| Links.ClearAssociatesNothing | Controllers/AuthorsController.cs:155-159 | emptying the collection and committing leaves the entity associated with nothing |
| Links.OtherOwnersUntouched | Controllers/BooksController.cs:157 | a commit of one entity's collection and removals neither adds nor deletes another entity's rows |
| Links.CommitDistinct | Controllers/BooksController.cs:157 | a commit keeps the join table free of repeated rows |
| Links.UnchangedFormNoChange | Controllers/BooksController.cs:114-126 | submitting the texts of the ids already associated appends nothing and removes nothing |
| Store.Where | Controllers/BooksController.cs:34 | an element occurs in the result of `Where` exactly when it occurs in the input and satisfies the condition |
| Store.WhereCounts | Controllers/BooksController.cs:34 | `Where` keeps every occurrence of a satisfying element and drops every occurrence of the others (as multisets) |
| Store.WhereAppend | Controllers/BooksController.cs:34 | `Where` keeps input order: filtering a concatenation is concatenating the filtered parts |
| Store.Single | Controllers/BooksController.cs:35 | `Single` yields the element of a one-element sequence and throws InvalidOperation otherwise |
| Store.WhereSingle | Controllers/BooksController.cs:34-35 | `Where(p).Single()` succeeds exactly when one position satisfies `p`, and yields that element |
| Store.WhereTwice | Controllers/AuthorsController.cs:45-53 | filtering twice by the same id is filtering once |
| Store.FindAuthor | Controllers/AuthorsController.cs:89-92 | `FirstOrDefault(m => m.Id == id)` finds an author exactly when one has that id, and it has that id |
| Store.FindBook | Controllers/BooksController.cs:145-148 | `FirstOrDefault(m => m.Id == id)` finds a book exactly when one has that id, and it has that id |
| Store.CommitKeepsValid | Controllers/BooksController.cs:157 | a commit keeps the keys unique and the foreign keys resolving when the committed collection does |
| Store.ReconcileCommitted | Controllers/BooksController.cs:155-157 | a whole edit keeps the database constraints, associates the entity with exactly the selected universe ids and leaves other entities' rows alone |
| Store.ClearCommitted | Controllers/AuthorsController.cs:155-159 | emptying the collection and committing keeps the constraints, associates the entity with nothing and leaves other entities' rows alone |
| Store.BookContext.constructor | Data/BookContext.cs:12-19 | a fresh context over stored tables that meet the database constraints is valid and has no pending removal |
| Store.BookContext.SaveChanges | Controllers/BooksController.cs:157 | the join table becomes the committed table, no removal stays pending, and the entity tables are unchanged |
| BooksController.AuthorsOf | Controllers/BooksController.cs:36 | `BookAuthors.Select(s => s.Author)` gives, for each row in order, the author that row points at |
| BooksController.Index | Controllers/BooksController.cs:24-39 | without an id, all books and no author list; with an id, it fails with InvalidOperation unless exactly one book has the id, and otherwise lists that book's authors in the order of its rows |
| BooksController.PopulateAssignedAuthorData | Controllers/BooksController.cs:112-127 | one checkbox per author in table order, with the author's id and full name, ticked exactly when the book's rows point at that author |
| BooksController.UnchangedFormKeepsAuthors | Controllers/BooksController.cs:112-127 | posting the author checkboxes as shown makes the reconcile step append and remove nothing |
| BooksController.EditGet | Controllers/BooksController.cs:89-110 | NotFound without an id or without such a book; otherwise the book and one checkbox per author in table order, with the author's id and full name, ticked exactly for its associated authors |
| BooksController.ApplySelection | Controllers/BooksController.cs:172-192 | the loop appends exactly `Additions` to the book's collection and passes exactly `Removals` to `Remove`; nothing already in the collection changes |
| BooksController.UpdateAuthorBooksAsWritten | Controllers/BooksController.cs:164-197 | as written: a null book throws NullReference, a null selection throws ArgumentNull, and neither changes anything; otherwise the selection is applied |
| BooksController.UpdateAuthorBooks | Controllers/BooksController.cs:164-197 | corrected guard: a null selection empties the book's collection; otherwise the selection is applied |
| BooksController.ReconcileAndSave | Controllers/BooksController.cs:155-157 | after reconciling and saving, the book has exactly the selected authors (none for a null selection), the constraints hold and other books' rows are unchanged |
| BooksController.EditPost | Controllers/BooksController.cs:137-162 | NotFound without an id; a failure when no book has the id; the form again, with nothing saved, when binding fails; otherwise the book ends with exactly the selected authors |
| AuthorsController.BooksOf | Controllers/AuthorsController.cs:36 | `BookAuthors.Select(s => s.Book)` gives, for each row in order, the book that row points at |
| AuthorsController.Index | Controllers/AuthorsController.cs:24-39 | without an id, all authors and no book list; with an id, it fails with InvalidOperation unless exactly one author has the id, and otherwise lists that author's books in the order of its rows |
| AuthorsController.Details | Controllers/AuthorsController.cs:42-58 | without an id, no authors and no book list; with an id, the authors listed are those with the id, and it succeeds, fails and lists books exactly as `Index` does |
| AuthorsController.PopulateAssignedBookData | Controllers/AuthorsController.cs:103-118 | one checkbox per book in table order, with the book's id and title, ticked exactly when the author's rows point at that book |
| AuthorsController.UnchangedFormKeepsBooks | Controllers/AuthorsController.cs:103-118 | posting the book checkboxes as shown makes the reconcile step append and remove nothing |
| AuthorsController.EditGet | Controllers/AuthorsController.cs:83-100 | NotFound without an id or without such an author; otherwise the author and one checkbox per book in table order, with the book's id and title, ticked exactly for its associated books |
| AuthorsController.ApplySelection | Controllers/AuthorsController.cs:161-181 | the loop appends exactly `Additions` to the author's collection and passes exactly `Removals` to `Remove`; nothing already in the collection changes |
| AuthorsController.UpdateAuthorBooks | Controllers/AuthorsController.cs:153-182 | a null selection replaces the collection with an empty one and removes nothing; otherwise the selection is applied |
| AuthorsController.ReconcileAndSave | Controllers/AuthorsController.cs:144-145 | after reconciling and saving, the author has exactly the selected books (none for a null selection), the constraints hold and other authors' rows are unchanged |
| AuthorsController.EditPost | Controllers/AuthorsController.cs:127-150 | NotFound without an id; a failure when no author has the id; the form again, with nothing saved, when binding fails; otherwise the author ends with exactly the selected books |

## Left out

- `Include`, `ThenInclude` and `AsNoTracking` are not modelled as loading. The navigation properties are taken to agree with the foreign keys: `c.Author.Id == c.AuthorId` and `c.Book.Id == c.BookId`. So the books' copy, which reads `c.Author.Id`, and the authors' copy, which reads `c.Book.Id`, are both modelled on the join row's ids.
- `SaveChangesAsync` and `async`/`await` become the synchronous `BookContext.SaveChanges`. It covers what the modelled actions change: the removed rows, and the one edited entity's collection. Entity identity is replaced by value equality of rows, which the (BookId, AuthorId) key makes equivalent. After the save, the navigation fix-up of the tracked entity is not modelled, because the action redirects and drops the entity.
- Every request gets a fresh context (the `BookContext` constructor, over tables that meet `ValidTables`), so `EditPost` starts with no pending removals (`ctx.removed == []`).
- `TryUpdateModelAsync` is modelled only by its outcome, the `bindingSucceeded` parameter, and by its refusal of a null model (`Failed(ArgumentNull)` when no entity has the id). The fields it binds (title, names, date, publisher, category, and the `BookAuthors` collection), `[Bind]`, `ModelState.IsValid`, `[Required]` and `[Display]` are not modelled.
- `ViewData`, `SelectList`, the views and anti-forgery tokens are not modelled. An action's answer is the `ActionResult` tag with the data the view would receive.
- `Create`, `Delete`, `DeleteConfirmed`, `BookExists` and `AuthorExists` are not modelled. They pass entities straight to the ORM's add, find and remove.
- `BooksController.Details` (Controllers/BooksController.cs:42-62) is not modelled. Its author list repeats `Index`. Its publisher list rests on navigation fix-up through `Author.Books`, which is ORM loading behaviour.
- Data/BookContext.cs `OnModelCreating` is ORM mapping configuration and is not modelled. The constraints it implies (unique keys, resolving foreign keys) are `Store.ValidTables`.
- `Book.PublishingDate` (`DateTime`) and its display format are not modelled.
- The view-model classes become the datatypes `AuthorCheckBox`, `BookCheckBox`, `BookIndexData` and `AuthorIndexData`.
- Ids are unbounded integers. The code does no arithmetic on ids, and `ToString()` writes every 32-bit value the same way. The minus sign is '-', as under the invariant culture.
- BooksController.EditPost, AuthorsController.EditPost: the model assumes the form posts no `BookAuthors` fields, so `TryUpdateModelAsync` leaves the collection as `Include` loaded it and the reconcile step sees exactly the stored rows of the entity. Both actions let model binding replace that collection (Controllers/BooksController.cs:153, Controllers/AuthorsController.cs:142); a request that does so is not modelled, and in the books' copy it would reach `c.Author.Id` on rows whose navigation was never loaded.
- BooksController.ReconcileAndSave: calls the corrected `UpdateAuthorBooks`, so for a null selection it empties the book's authors and saves. The code as written at Controllers/BooksController.cs:155-157 throws ArgumentNullException at line 172 and saves nothing (see Findings and `UpdateAuthorBooksAsWritten`).
- BooksController.EditPost: calls the corrected `UpdateAuthorBooks`, so for a null selection it empties the book's authors. The code as written throws at that point (see Findings and `UpdateAuthorBooksAsWritten`).

## Findings

| source | as written | input that shows it | evidently intended | confidence | as-written member | corrected member |
|---|---|---|---|---|---|---|
| Controllers/BooksController.cs:166-172 | the guard tests `bookToUpdate == null` and then assigns `bookToUpdate.BookAuthors`; a null `selectedAuthors` passes the guard and reaches `new HashSet<string>(selectedAuthors)` | a loaded book with `selectedAuthors = null`: ArgumentNullException, and the book keeps its authors; `bookToUpdate = null`: NullReferenceException at line 168 | test `selectedAuthors == null` and give the book an empty collection, as Controllers/AuthorsController.cs:155-159 does | medium, not executed | BooksController.UpdateAuthorBooksAsWritten | BooksController.UpdateAuthorBooks |
