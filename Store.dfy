/** The database context (Data/BookContext.cs as the controllers use it):
    the entity tables, the join table, the rows passed to `Remove` and not
    yet deleted, and `SaveChanges`. Also the entities the controllers load
    with their `BookAuthors` collection and the LINQ operators they use. */
module Store {
  import opened Wrappers
  import opened Models
  import opened Links

  /** The exceptions the modelled code can raise. */
  datatype Exception =
    | NullReference     // a member of a null reference is used
    | ArgumentNull      // a null argument reaches a framework method
    | InvalidOperation  // `Single()` on a sequence without exactly one element

  datatype Outcome<T> = Done(value: T) | Threw(error: Exception)

  /** What a controller action answers. */
  datatype ActionResult<T> = NotFound | View(model: T) | RedirectToIndex | Failed(error: Exception)

  function AuthorIds(authors: seq<Author>): (ids: seq<int>)
    ensures |ids| == |authors|
    ensures forall i :: 0 <= i < |authors| ==> ids[i] == authors[i].id
  {
    seq(|authors|, i requires 0 <= i < |authors| => authors[i].id)
  }

  function BookIds(books: seq<Book>): (ids: seq<int>)
    ensures |ids| == |books|
    ensures forall i :: 0 <= i < |books| ==> ids[i] == books[i].id
  {
    seq(|books|, i requires 0 <= i < |books| => books[i].id)
  }

  /** `Where(p)`: the elements satisfying `p`, in order. */
  function Where<T(!new)>(s: seq<T>, p: T -> bool): (r: seq<T>)
    ensures forall x :: x in r <==> x in s && p(x)
    decreases |s|
  {
    if s == [] then []
    else
      assert forall x :: x in s <==> x == s[0] || x in s[1..] by {
        assert s == [s[0]] + s[1..];
      }
      (if p(s[0]) then [s[0]] else []) + Where(s[1..], p)
  }

  /** `Where` keeps every occurrence of a satisfying element and drops
      every occurrence of the others. */
  lemma {:induction false} WhereCounts<T(!new)>(s: seq<T>, p: T -> bool)
    ensures forall x :: multiset(Where(s, p))[x] == if p(x) then multiset(s)[x] else 0
    decreases |s|
  {
    if s != [] {
      WhereCounts(s[1..], p);
      assert s == [s[0]] + s[1..];
      var head: seq<T> := if p(s[0]) then [s[0]] else [];
      assert Where(s, p) == head + Where(s[1..], p);
      assert multiset(s) == multiset([s[0]]) + multiset(s[1..]);
      assert multiset(Where(s, p)) == multiset(head) + multiset(Where(s[1..], p));
    }
  }

  /** `Where` keeps the order of its input: filtering a concatenation is
      concatenating the filtered parts. */
  lemma {:induction false} WhereAppend<T(!new)>(a: seq<T>, b: seq<T>, p: T -> bool)
    ensures Where(a + b, p) == Where(a, p) + Where(b, p)
    decreases |a|
  {
    if a == [] {
      assert a + b == b;
    } else {
      assert (a + b)[0] == a[0];
      assert (a + b)[1..] == a[1..] + b;
      WhereAppend(a[1..], b, p);
    }
  }

  /** `Single()`: the only element, or InvalidOperationException when there
      are none or several. */
  function Single<T>(s: seq<T>): (r: Outcome<T>)
    ensures r.Done? <==> |s| == 1
    ensures r.Done? ==> r.value == s[0]
    ensures r.Threw? ==> r.error == InvalidOperation
  {
    if |s| == 1 then Done(s[0]) else Threw(InvalidOperation)
  }

  lemma WhereNone<T(!new)>(s: seq<T>, p: T -> bool)
    ensures |Where(s, p)| == 0 <==> forall k :: 0 <= k < |s| ==> !p(s[k])
  {
    if |Where(s, p)| != 0 {
      assert Where(s, p)[0] in s;
    }
  }

  predicate TwoMatch<T>(s: seq<T>, p: T -> bool)
  {
    exists j, k :: 0 <= j < k < |s| && p(s[j]) && p(s[k])
  }

  lemma {:induction false} WhereTwo<T(!new)>(s: seq<T>, p: T -> bool)
    ensures |Where(s, p)| >= 2 <==> TwoMatch(s, p)
    decreases |s|
  {
    if s != [] {
      var t := s[1..];
      assert Where(s, p) == (if p(s[0]) then [s[0]] else []) + Where(t, p);
      WhereTwo(t, p);
      if TwoMatch(t, p) {
        var j, k :| 0 <= j < k < |t| && p(t[j]) && p(t[k]);
        assert s[j + 1] == t[j] && s[k + 1] == t[k];
      }
      if TwoMatch(s, p) {
        var j, k :| 0 <= j < k < |s| && p(s[j]) && p(s[k]);
        assert s[k] == t[k - 1];
        if j > 0 {
          assert s[j] == t[j - 1];
          assert TwoMatch(t, p);
        } else {
          WhereNone(t, p);
        }
      }
      if p(s[0]) && |Where(t, p)| >= 1 {
        WhereNone(t, p);
        var k :| 0 <= k < |t| && p(t[k]);
        assert s[k + 1] == t[k];
      }
    }
  }

  /** `Where(p).Single()` succeeds exactly when one position of `s`
      satisfies `p`, and then yields the element there. */
  lemma WhereSingle<T(!new)>(s: seq<T>, p: T -> bool)
    ensures |Where(s, p)| == 1 <==>
      (exists k :: 0 <= k < |s| && p(s[k])) &&
      !TwoMatch(s, p)
    ensures |Where(s, p)| == 1 ==>
      forall k :: 0 <= k < |s| && p(s[k]) ==> Where(s, p)[0] == s[k]
  {
    WhereNone(s, p);
    WhereTwo(s, p);
    if |Where(s, p)| == 1 {
      forall k | 0 <= k < |s| && p(s[k]) ensures Where(s, p)[0] == s[k] {
        assert s[k] in Where(s, p);
      }
    }
  }

  /** Filtering twice by the same condition is filtering once. */
  lemma {:induction false} WhereTwice<T(!new)>(s: seq<T>, p: T -> bool)
    ensures Where(Where(s, p), p) == Where(s, p)
    decreases |s|
  {
    if s != [] {
      WhereTwice(s[1..], p);
      var w := Where(s, p);
      if p(s[0]) {
        assert w == [s[0]] + Where(s[1..], p);
        assert w[0] == s[0] && w[1..] == Where(s[1..], p);
        assert Where(w, p) == [w[0]] + Where(w[1..], p);
      } else {
        assert w == Where(s[1..], p);
      }
    }
  }

  /** `FirstOrDefault(m => m.Id == id)` over the authors. */
  function FindAuthor(authors: seq<Author>, id: int): (r: Option<Author>)
    ensures r.Some? <==> id in AuthorIds(authors)
    ensures r.Some? ==> r.value in authors && r.value.id == id
    decreases |authors|
  {
    if authors == [] then None
    else if authors[0].id == id then Some(authors[0])
    else
      assert AuthorIds(authors) == [authors[0].id] + AuthorIds(authors[1..]);
      FindAuthor(authors[1..], id)
  }

  /** `FirstOrDefault(m => m.Id == id)` over the books. */
  function FindBook(books: seq<Book>, id: int): (r: Option<Book>)
    ensures r.Some? <==> id in BookIds(books)
    ensures r.Some? ==> r.value in books && r.value.id == id
    decreases |books|
  {
    if books == [] then None
    else if books[0].id == id then Some(books[0])
    else
      assert BookIds(books) == [books[0].id] + BookIds(books[1..]);
      FindBook(books[1..], id)
  }

  /** Both ends of a join row exist. */
  predicate Resolves(authors: seq<Author>, books: seq<Book>, r: BookAuthor)
  {
    r.authorId in AuthorIds(authors) && r.bookId in BookIds(books)
  }

  /** The database's constraints: primary keys are unique, join rows are
      unique (their key is the pair), and both foreign keys of every join
      row resolve. */
  ghost predicate ValidTables(authors: seq<Author>, books: seq<Book>, table: seq<BookAuthor>)
  {
    && Distinct(AuthorIds(authors))
    && Distinct(BookIds(books))
    && Distinct(table)
    && forall r :: r in table ==> Resolves(authors, books, r)
  }

  /** A commit keeps the database's constraints when the committed
      collection has no repeated row and every row of it resolves. */
  lemma CommitKeepsValid(side: Side, owner: int, authors: seq<Author>, books: seq<Book>, table: seq<BookAuthor>, removed: seq<BookAuthor>, nav: seq<BookAuthor>)
    requires ValidTables(authors, books, table)
    requires Distinct(nav) && forall r :: r in nav ==> Resolves(authors, books, r)
    ensures ValidTables(authors, books, Committed(side, owner, table, removed, nav))
  {
    CommitDistinct(side, owner, table, removed, nav);
  }

  /** The ids an edit chooses from: all authors for a book, all books for
      an author. */
  function Universe(side: Side, authors: seq<Author>, books: seq<Book>): seq<int>
  {
    if side == FromBook then AuthorIds(authors) else BookIds(books)
  }

  /** The ids of the entities whose collections are edited. */
  function OwnerIds(side: Side, authors: seq<Author>, books: seq<Book>): seq<int>
  {
    if side == FromBook then BookIds(books) else AuthorIds(authors)
  }

  /** A whole edit of an existing entity's collection, from loading it to
      committing: the constraints still hold, the entity is associated with
      exactly the selected ids of the universe, and no other entity's row
      is touched. */
  lemma ReconcileCommitted(side: Side, owner: int, authors: seq<Author>, books: seq<Book>, table: seq<BookAuthor>, sel: set<string>)
    requires ValidTables(authors, books, table)
    requires owner in OwnerIds(side, authors, books)
    ensures var ids := Universe(side, authors, books);
            var nav := Owned(side, table, owner);
            var t := Committed(side, owner, table, Removals(side, nav, ids, sel),
                               nav + Additions(side, owner, ids, sel, Others(side, nav)));
            && ValidTables(authors, books, t)
            && Associated(side, t, owner) == Selected(ids, sel)
            && forall r :: Owner(side, r) != owner ==> (r in t <==> r in table)
  {
    var ids := Universe(side, authors, books);
    var nav := Owned(side, table, owner);
    var adds := Additions(side, owner, ids, sel, Others(side, nav));
    var rm := Removals(side, nav, ids, sel);
    forall u | u in Others(side, nav) ensures u in ids {
      var r :| r in nav && Other(side, r) == u;
      assert Resolves(authors, books, r);
    }
    ReconcileAssociates(side, owner, table, nav, ids, sel);
    AdditionsSpec(side, owner, ids, sel, Others(side, nav));
    RemovalsSpec(side, nav, ids, sel);
    NoDuplicatePairs(side, owner, nav, ids, sel);
    forall r | r in nav + adds ensures Resolves(authors, books, r) {
      if r in adds {
        assert Other(side, r) in Others(side, adds);
      }
    }
    CommitKeepsValid(side, owner, authors, books, table, rm, nav + adds);
    forall r | Owner(side, r) != owner
      ensures r in Committed(side, owner, table, rm, nav + adds) <==> r in table
    {
      OtherOwnersUntouched(side, owner, table, rm, nav + adds, r);
    }
  }

  /** Emptying an entity's collection and committing: the constraints
      still hold, the entity is associated with nothing, and no other
      entity's row is touched. */
  lemma ClearCommitted(side: Side, owner: int, authors: seq<Author>, books: seq<Book>, table: seq<BookAuthor>)
    requires ValidTables(authors, books, table)
    ensures var t := Committed(side, owner, table, [], []);
            && ValidTables(authors, books, t)
            && Associated(side, t, owner) == {}
            && forall r :: Owner(side, r) != owner ==> (r in t <==> r in table)
  {
    ClearAssociatesNothing(side, owner, table);
    CommitKeepsValid(side, owner, authors, books, table, [], []);
  }

  class BookContext {
    var authors: seq<Author>
    var books: seq<Book>
    var bookAuthors: seq<BookAuthor>
    /** Rows passed to `Remove`, deleted by the next `SaveChanges`. */
    var removed: seq<BookAuthor>

    ghost predicate Valid()
      reads this
    {
      ValidTables(authors, books, bookAuthors)
    }

    /** A fresh context over the stored tables, with no pending change:
        what every request starts from. */
    constructor (authors: seq<Author>, books: seq<Book>, bookAuthors: seq<BookAuthor>)
      requires ValidTables(authors, books, bookAuthors)
      ensures Valid()
      ensures this.authors == authors && this.books == books
      ensures this.bookAuthors == bookAuthors && removed == []
    {
      this.authors := authors;
      this.books := books;
      this.bookAuthors := bookAuthors;
      removed := [];
    }

    /** `SaveChanges` after editing the collection `nav` of the entity
        `owner`: the removed rows and the rows dropped from the collection
        are deleted, the new rows of the collection are inserted. */
    method SaveChanges(side: Side, owner: int, nav: seq<BookAuthor>)
      modifies this
      ensures bookAuthors == Committed(side, owner, old(bookAuthors), old(removed), nav)
      ensures removed == []
      ensures authors == old(authors) && books == old(books)
    {
      bookAuthors := Committed(side, owner, bookAuthors, removed, nav);
      removed := [];
    }
  }

  /** A book loaded with `Include(b => b.BookAuthors)` and tracked: its
      collection is a list the controller edits in place. */
  class TrackedBook {
    const book: Book
    var bookAuthors: seq<BookAuthor>

    constructor (book: Book, bookAuthors: seq<BookAuthor>)
      ensures this.book == book && this.bookAuthors == bookAuthors
    {
      this.book := book;
      this.bookAuthors := bookAuthors;
    }
  }

  /** An author loaded with `Include(b => b.BookAuthors)` and tracked. */
  class TrackedAuthor {
    const author: Author
    var bookAuthors: seq<BookAuthor>

    constructor (author: Author, bookAuthors: seq<BookAuthor>)
      ensures this.author == author && this.bookAuthors == bookAuthors
    {
      this.author := author;
      this.bookAuthors := bookAuthors;
    }
  }
}
