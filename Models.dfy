/** The entities of the book store (Models/Author.cs, Models/Book.cs,
    Models/Publisher.cs and the BookAuthor join entity), as plain values.
    Navigation collections are not part of these values: the join records
    live in the store (module Store) and are reached by id. */
module Models {
  import opened Wrappers

  datatype Category = Fantasy | Fiction | Historical | Horror | Romance | Thriller

  datatype Publisher = Publisher(id: int, publisherName: string)

  datatype Book = Book(id: int, title: string, category: Category, publisherId: int)

  datatype Author = Author(id: int, firstName: string, lastName: string)

  /** One row of the many-to-many join table: the book `bookId` has the
      author `authorId`. (BookId, AuthorId) is the row's key. */
  datatype BookAuthor = BookAuthor(bookId: int, authorId: int)

  /** The computed `FullName` property: last name, a comma and a blank,
      then the first name. */
  function FullName(a: Author): (r: string)
    ensures |r| == |a.lastName| + 2 + |a.firstName|
    ensures r[..|a.lastName|] == a.lastName
    ensures r[|a.lastName|] == ',' && r[|a.lastName| + 1] == ' '
    ensures r[|a.lastName| + 2..] == a.firstName
  {
    a.lastName + ", " + a.firstName
  }

  /** Reads a full name back: the text before the first comma is the last
      name, and a blank must follow that comma. */
  function SplitFullName(s: string): (r: Option<(string, string)>)
    ensures r.Some? ==> ',' !in r.value.0
    decreases |s|
  {
    if |s| < 2 then None
    else if s[0] == ',' then
      if s[1] == ' ' then Some(("", s[2..])) else None
    else
      match SplitFullName(s[1..])
      case None => None
      case Some(p) => Some(([s[0]] + p.0, p.1))
  }

  lemma {:induction false} SplitJoined(last: string, first: string)
    requires ',' !in last
    ensures SplitFullName(last + ", " + first) == Some((last, first))
    decreases |last|
  {
    if last != [] {
      assert (last + ", " + first)[1..] == last[1..] + ", " + first;
      SplitJoined(last[1..], first);
      assert [last[0]] + last[1..] == last;
    } else {
      assert (last + ", " + first)[2..] == first;
    }
  }

  lemma {:induction false} SplitSound(s: string)
    ensures SplitFullName(s).Some? ==>
      s == SplitFullName(s).value.0 + ", " + SplitFullName(s).value.1
    decreases |s|
  {
    if |s| >= 2 && s[0] != ',' {
      SplitSound(s[1..]);
      if SplitFullName(s[1..]).Some? {
        var p := SplitFullName(s[1..]).value;
        assert s == [s[0]] + s[1..];
        assert s == ([s[0]] + p.0) + ", " + p.1;
      }
    } else if |s| >= 2 && s[1] == ' ' {
      assert s == "" + ", " + s[2..];
    }
  }

  /** FullName and SplitFullName are inverse to each other whenever the
      last name holds no comma: a name splits back into the fields it was
      built from, and every text that splits is the full name of its parts. */
  lemma FullNameRoundTrip(a: Author, s: string)
    ensures ',' !in a.lastName ==>
      SplitFullName(FullName(a)) == Some((a.lastName, a.firstName))
    ensures SplitFullName(s) == Some((a.lastName, a.firstName)) ==> FullName(a) == s
  {
    if ',' !in a.lastName {
      SplitJoined(a.lastName, a.firstName);
    }
    SplitSound(s);
  }
}
