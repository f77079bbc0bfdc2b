/** The join table between books and authors, seen from the entity whose
    `BookAuthors` collection is being edited (the owner), and the
    specification of the reconcile step that both controllers perform:
    which rows it appends, which rows it marks for removal, and what the
    table holds once the store commits those changes. */
module Links {
  import opened Wrappers
  import opened Models
  import opened Decimal

  /** Whose collection is edited: a book's authors (BooksController) or an
      author's books (AuthorsController). */
  datatype Side = FromBook | FromAuthor

  /** The id of the edited entity a row belongs to. */
  function Owner(side: Side, r: BookAuthor): int
  {
    if side == FromBook then r.bookId else r.authorId
  }

  /** The id of the counterpart a row points at. */
  function Other(side: Side, r: BookAuthor): int
  {
    if side == FromBook then r.authorId else r.bookId
  }

  /** The row that associates `owner` with `other`. */
  function Link(side: Side, owner: int, other: int): (r: BookAuthor)
    ensures Owner(side, r) == owner && Other(side, r) == other
  {
    if side == FromBook then BookAuthor(owner, other) else BookAuthor(other, owner)
  }

  /** A row is determined by its owner and its counterpart. */
  lemma RowDetermined(side: Side, r: BookAuthor, s: BookAuthor)
    requires Owner(side, r) == Owner(side, s) && Other(side, r) == Other(side, s)
    ensures r == s
  {
  }

  /** The counterpart ids of some rows (the `HashSet<int>` both reconcilers
      build from the collection). */
  function Others(side: Side, rs: seq<BookAuthor>): set<int>
  {
    set r | r in rs :: Other(side, r)
  }

  /** The counterpart ids associated with `owner` in a table. */
  function Associated(side: Side, table: seq<BookAuthor>, owner: int): set<int>
  {
    set r | r in table && Owner(side, r) == owner :: Other(side, r)
  }

  predicate OwnedBy(side: Side, rs: seq<BookAuthor>, owner: int)
  {
    forall r :: r in rs ==> Owner(side, r) == owner
  }

  predicate Distinct<T(==)>(s: seq<T>)
  {
    forall i, j :: 0 <= i < j < |s| ==> s[i] != s[j]
  }

  /** `new HashSet<string>(selected)`: the submitted strings as a set. */
  function SelectionSet(selected: seq<string>): (r: set<string>)
    ensures forall x :: x in r <==> x in selected
  {
    set x | x in selected
  }

  /** The ids whose decimal text is among the submitted strings: the set
      the edited collection must hold after a reconcile. */
  function Selected(ids: seq<int>, sel: set<string>): set<int>
  {
    set u | u in ids && IntToString(u) in sel
  }

  /** The position of the first row pointing at `other`, or |rs| when
      there is none. */
  function FirstIndex(side: Side, rs: seq<BookAuthor>, other: int): (k: nat)
    ensures k <= |rs|
    ensures k < |rs| ==> Other(side, rs[k]) == other
    ensures forall j :: 0 <= j < k ==> Other(side, rs[j]) != other
  {
    if rs == [] then 0
    else if Other(side, rs[0]) == other then 0
    else 1 + FirstIndex(side, rs[1..], other)
  }

  /** `FirstOrDefault(i => i.<counterpart>Id == other)`: the first row
      pointing at `other`, or nothing. */
  function FirstWith(side: Side, rs: seq<BookAuthor>, other: int): (r: Option<BookAuthor>)
    ensures r.Some? <==> other in Others(side, rs)
    ensures r.Some? ==> exists k :: 0 <= k < |rs| && rs[k] == r.value && Other(side, rs[k]) == other &&
                                   forall j :: 0 <= j < k ==> Other(side, rs[j]) != other
  {
    var k := FirstIndex(side, rs, other);
    if k < |rs| then Some(rs[k]) else None
  }

  /** The rows of `table` that belong to `owner`, in table order: the
      collection `Include(... BookAuthors)` loads for an entity. */
  function Owned(side: Side, table: seq<BookAuthor>, owner: int): (rs: seq<BookAuthor>)
    ensures forall r :: r in rs <==> r in table && Owner(side, r) == owner
    ensures Distinct(table) ==> Distinct(rs)
  {
    if table == [] then []
    else
      var rest := Owned(side, table[1..], owner);
      assert forall r :: r in table <==> r == table[0] || r in table[1..] by {
        assert table == [table[0]] + table[1..];
      }
      if Owner(side, table[0]) == owner then [table[0]] + rest else rest
  }

  /** The rows the reconcile loop appends, in universe order: one per id
      that is selected and not yet associated (`have`). */
  function Additions(side: Side, owner: int, ids: seq<int>, sel: set<string>, have: set<int>): seq<BookAuthor>
    decreases |ids|
  {
    if ids == [] then []
    else
      var u := ids[|ids| - 1];
      Additions(side, owner, ids[..|ids| - 1], sel, have)
        + (if IntToString(u) in sel && u !in have then [Link(side, owner, u)] else [])
  }

  /** The rows the reconcile loop passes to `Remove`, in universe order:
      for each id that is associated in `nav` and not selected, the first
      row of `nav` pointing at it. */
  function Removals(side: Side, nav: seq<BookAuthor>, ids: seq<int>, sel: set<string>): seq<BookAuthor>
    decreases |ids|
  {
    if ids == [] then []
    else
      var u := ids[|ids| - 1];
      Removals(side, nav, ids[..|ids| - 1], sel)
        + (if IntToString(u) !in sel && u in Others(side, nav) then [FirstWith(side, nav, u).value] else [])
  }

  /** Rows of the stored table that survive a commit: those not removed,
      and, for `owner`, only those still in its collection `nav`. */
  function Kept(side: Side, owner: int, table: seq<BookAuthor>, removed: seq<BookAuthor>, nav: seq<BookAuthor>): (rs: seq<BookAuthor>)
    ensures forall r :: r in rs <==> r in table && r !in removed && (Owner(side, r) != owner || r in nav)
    ensures Distinct(table) ==> Distinct(rs)
  {
    if table == [] then []
    else
      var rest := Kept(side, owner, table[1..], removed, nav);
      var t := table[0];
      assert forall r :: r in table <==> r == t || r in table[1..] by {
        assert table == [t] + table[1..];
      }
      if t !in removed && (Owner(side, t) != owner || t in nav) then [t] + rest else rest
  }

  /** Rows of the collection `nav` that a commit inserts: those not yet
      stored and not removed. */
  function Inserted(nav: seq<BookAuthor>, table: seq<BookAuthor>, removed: seq<BookAuthor>): (rs: seq<BookAuthor>)
    ensures forall r :: r in rs <==> r in nav && r !in table && r !in removed
    ensures Distinct(nav) ==> Distinct(rs)
  {
    if nav == [] then []
    else
      var rest := Inserted(nav[1..], table, removed);
      var n := nav[0];
      assert forall r :: r in nav <==> r == n || r in nav[1..] by {
        assert nav == [n] + nav[1..];
      }
      if n !in table && n !in removed then [n] + rest else rest
  }

  /** The table after `SaveChanges`: removed rows are deleted, rows dropped
      from the owner's collection are deleted, new rows of the collection
      are appended; every other row keeps its place. */
  function Committed(side: Side, owner: int, table: seq<BookAuthor>, removed: seq<BookAuthor>, nav: seq<BookAuthor>): (t: seq<BookAuthor>)
    ensures forall r :: r in t && Owner(side, r) == owner <==>
      r in nav && Owner(side, r) == owner && r !in removed
    ensures forall r :: Owner(side, r) != owner ==>
      (r in t <==> (r in table && r !in removed) || (r in nav && r !in table && r !in removed))
  {
    Kept(side, owner, table, removed, nav) + Inserted(nav, table, removed)
  }

  lemma OthersAppend(side: Side, a: seq<BookAuthor>, b: seq<BookAuthor>)
    ensures Others(side, a + b) == Others(side, a) + Others(side, b)
  {
    forall u | u in Others(side, a + b) ensures u in Others(side, a) + Others(side, b) {
      var r :| r in a + b && Other(side, r) == u;
    }
    forall u | u in Others(side, a) + Others(side, b) ensures u in Others(side, a + b) {
      if u in Others(side, a) {
        var r :| r in a && Other(side, r) == u;
        assert r in a + b;
      } else {
        var r :| r in b && Other(side, r) == u;
        assert r in a + b;
      }
    }
  }

  lemma {:induction false} FirstIndexAppend(side: Side, a: seq<BookAuthor>, b: seq<BookAuthor>, other: int)
    requires FirstIndex(side, a, other) < |a|
    ensures FirstIndex(side, a + b, other) == FirstIndex(side, a, other)
  {
    if Other(side, a[0]) != other {
      assert (a + b)[1..] == a[1..] + b;
      FirstIndexAppend(side, a[1..], b, other);
    }
  }

  /** Appending rows never changes which row `FirstOrDefault` finds for a
      counterpart that was already present. */
  lemma FirstWithAppend(side: Side, a: seq<BookAuthor>, b: seq<BookAuthor>, other: int)
    requires other in Others(side, a)
    ensures FirstWith(side, a + b, other) == FirstWith(side, a, other)
  {
    FirstIndexAppend(side, a, b, other);
  }

  /** The rows appended all belong to `owner`, and they point exactly at
      the ids that are selected and not yet associated. */
  lemma {:induction false} AdditionsSpec(side: Side, owner: int, ids: seq<int>, sel: set<string>, have: set<int>)
    ensures OwnedBy(side, Additions(side, owner, ids, sel, have), owner)
    ensures Others(side, Additions(side, owner, ids, sel, have))
         == set u | u in ids && IntToString(u) in sel && u !in have
    decreases |ids|
  {
    if ids != [] {
      var init, u := ids[..|ids| - 1], ids[|ids| - 1];
      AdditionsSpec(side, owner, init, sel, have);
      var step := if IntToString(u) in sel && u !in have then [Link(side, owner, u)] else [];
      OthersAppend(side, Additions(side, owner, init, sel, have), step);
      assert ids == init + [u];
    }
  }

  /** Every row passed to `Remove` is a row of the collection, and they
      point exactly at the ids that are associated and not selected. */
  lemma {:induction false} RemovalsSpec(side: Side, nav: seq<BookAuthor>, ids: seq<int>, sel: set<string>)
    ensures forall r :: r in Removals(side, nav, ids, sel) ==> r in nav
    ensures Others(side, Removals(side, nav, ids, sel))
         == set u | u in ids && IntToString(u) !in sel && u in Others(side, nav)
    decreases |ids|
  {
    if ids != [] {
      var init, u := ids[..|ids| - 1], ids[|ids| - 1];
      RemovalsSpec(side, nav, init, sel);
      var step := if IntToString(u) !in sel && u in Others(side, nav) then [FirstWith(side, nav, u).value] else [];
      OthersAppend(side, Removals(side, nav, init, sel), step);
      assert ids == init + [u];
    }
  }

  /** The counterparts of the rows of `rs` that are not in `removed`. */
  function Surviving(side: Side, rs: seq<BookAuthor>, removed: seq<BookAuthor>): set<int>
  {
    set r | r in rs && r !in removed :: Other(side, r)
  }

  /** After a commit, the owner is associated with the counterparts of the
      rows of its collection that were not removed. */
  lemma CommitAssociates(side: Side, owner: int, table: seq<BookAuthor>, removed: seq<BookAuthor>, nav: seq<BookAuthor>)
    requires OwnedBy(side, nav, owner)
    ensures Associated(side, Committed(side, owner, table, removed, nav), owner) == Surviving(side, nav, removed)
  {
    var t := Committed(side, owner, table, removed, nav);
    forall u | u in Surviving(side, nav, removed) ensures u in Associated(side, t, owner) {
      var r :| r in nav && r !in removed && Other(side, r) == u;
      assert r in t && Owner(side, r) == owner;
    }
  }

  /** Every row of the collection whose counterpart is in the universe but
      not selected is among the rows marked for removal. */
  lemma DeselectedRemoved(side: Side, owner: int, nav: seq<BookAuthor>, ids: seq<int>, sel: set<string>, r: BookAuthor)
    requires OwnedBy(side, nav, owner)
    requires r in nav && Other(side, r) in ids && IntToString(Other(side, r)) !in sel
    ensures r in Removals(side, nav, ids, sel)
  {
    var rm := Removals(side, nav, ids, sel);
    RemovalsSpec(side, nav, ids, sel);
    assert Other(side, r) in Others(side, rm);
    var r' :| r' in rm && Other(side, r') == Other(side, r);
    RowDetermined(side, r, r');
  }

  lemma SurvivorsSelected(side: Side, owner: int, nav: seq<BookAuthor>, ids: seq<int>, sel: set<string>)
    requires OwnedBy(side, nav, owner)
    requires forall u :: u in Others(side, nav) ==> u in ids
    ensures Surviving(side, nav + Additions(side, owner, ids, sel, Others(side, nav)), Removals(side, nav, ids, sel))
         == Selected(ids, sel)
  {
    var have := Others(side, nav);
    var adds := Additions(side, owner, ids, sel, have);
    var rm := Removals(side, nav, ids, sel);
    AdditionsSpec(side, owner, ids, sel, have);
    RemovalsSpec(side, nav, ids, sel);
    forall u | u in Selected(ids, sel) ensures u in Surviving(side, nav + adds, rm) {
      var r: BookAuthor;
      if u in have {
        r :| r in nav && Other(side, r) == u;
      } else {
        assert u in Others(side, adds);
        r :| r in adds && Other(side, r) == u;
      }
      assert u !in Others(side, rm);
      assert r in nav + adds && r !in rm;
    }
    forall u | u in Surviving(side, nav + adds, rm) ensures u in Selected(ids, sel) {
      var r :| r in nav + adds && r !in rm && Other(side, r) == u;
      if r in adds {
        assert u in Others(side, adds);
      } else {
        assert u in have;
        if IntToString(u) !in sel {
          DeselectedRemoved(side, owner, nav, ids, sel, r);
        }
      }
    }
  }

  /** The main property of the reconciler: when the collection `nav` holds
      the owner's rows and points only at ids of the universe, then after
      the appends, the removals and the commit, the owner is associated
      with exactly the universe ids whose decimal text was submitted.
      Unknown strings play no part. */
  lemma ReconcileAssociates(side: Side, owner: int, table: seq<BookAuthor>, nav: seq<BookAuthor>, ids: seq<int>, sel: set<string>)
    requires OwnedBy(side, nav, owner)
    requires forall u :: u in Others(side, nav) ==> u in ids
    ensures Associated(side, Committed(side, owner, table,
                                       Removals(side, nav, ids, sel),
                                       nav + Additions(side, owner, ids, sel, Others(side, nav))), owner)
         == Selected(ids, sel)
  {
    var adds := Additions(side, owner, ids, sel, Others(side, nav));
    AdditionsSpec(side, owner, ids, sel, Others(side, nav));
    CommitAssociates(side, owner, table, Removals(side, nav, ids, sel), nav + adds);
    SurvivorsSelected(side, owner, nav, ids, sel);
  }

  predicate UniqueOthers(side: Side, rs: seq<BookAuthor>)
  {
    forall i, j :: 0 <= i < j < |rs| ==> Other(side, rs[i]) != Other(side, rs[j])
  }

  lemma DistinctConcat<T>(a: seq<T>, b: seq<T>)
    requires Distinct(a) && Distinct(b)
    requires forall x :: x in a ==> x !in b
    ensures Distinct(a + b)
  {
    forall i, j | 0 <= i < j < |a + b| ensures (a + b)[i] != (a + b)[j] {
      if j >= |a| && i < |a| {
        assert (a + b)[i] in a && (a + b)[j] in b;
      }
    }
  }

  /** With distinct universe ids, the appended rows point at distinct
      counterparts. */
  lemma {:induction false} AdditionsUnique(side: Side, owner: int, ids: seq<int>, sel: set<string>, have: set<int>)
    requires Distinct(ids)
    ensures UniqueOthers(side, Additions(side, owner, ids, sel, have))
    decreases |ids|
  {
    if ids != [] {
      var init, u := ids[..|ids| - 1], ids[|ids| - 1];
      var prev := Additions(side, owner, init, sel, have);
      AdditionsUnique(side, owner, init, sel, have);
      AdditionsSpec(side, owner, init, sel, have);
      assert u !in init by {
        assert forall k :: 0 <= k < |init| ==> init[k] == ids[k];
      }
      forall r | r in prev ensures Other(side, r) != u {
        assert Other(side, r) in Others(side, prev);
      }
    }
  }

  /** With distinct universe ids, each deselected counterpart has exactly
      one row passed to `Remove`. */
  lemma {:induction false} RemovalsUnique(side: Side, nav: seq<BookAuthor>, ids: seq<int>, sel: set<string>)
    requires Distinct(ids)
    ensures UniqueOthers(side, Removals(side, nav, ids, sel))
    decreases |ids|
  {
    if ids != [] {
      var init, u := ids[..|ids| - 1], ids[|ids| - 1];
      var prev := Removals(side, nav, init, sel);
      RemovalsUnique(side, nav, init, sel);
      RemovalsSpec(side, nav, init, sel);
      assert u !in init by {
        assert forall k :: 0 <= k < |init| ==> init[k] == ids[k];
      }
      forall r | r in prev ensures Other(side, r) != u {
        assert Other(side, r) in Others(side, prev);
      }
    }
  }

  /** Reconciling never creates a duplicate pair: when the collection has
      no repeated row and the universe ids are distinct (they are primary
      keys), the collection with the appended rows has no repeated row. */
  lemma NoDuplicatePairs(side: Side, owner: int, nav: seq<BookAuthor>, ids: seq<int>, sel: set<string>)
    requires OwnedBy(side, nav, owner) && Distinct(nav) && Distinct(ids)
    ensures Distinct(nav + Additions(side, owner, ids, sel, Others(side, nav)))
  {
    var have := Others(side, nav);
    var adds := Additions(side, owner, ids, sel, have);
    AdditionsSpec(side, owner, ids, sel, have);
    AdditionsUnique(side, owner, ids, sel, have);
    forall r | r in adds ensures r !in nav {
      assert Other(side, r) in Others(side, adds);
    }
    DistinctConcat(nav, adds);
  }

  /** The appended rows follow the universe order: reconciling a universe
      made of two parts appends the rows of the first part, then those of
      the second. */
  lemma {:induction false} AdditionsInOrder(side: Side, owner: int, ids1: seq<int>, ids2: seq<int>, sel: set<string>, have: set<int>)
    ensures Additions(side, owner, ids1 + ids2, sel, have)
         == Additions(side, owner, ids1, sel, have) + Additions(side, owner, ids2, sel, have)
    decreases |ids2|
  {
    if ids2 == [] {
      assert ids1 + ids2 == ids1;
    } else {
      var init2 := ids2[..|ids2| - 1];
      assert (ids1 + ids2)[..|ids1 + ids2| - 1] == ids1 + init2;
      AdditionsInOrder(side, owner, ids1, init2, sel, have);
    }
  }

  /** The rows marked for removal follow the universe order in the same
      way. */
  lemma {:induction false} RemovalsInOrder(side: Side, nav: seq<BookAuthor>, ids1: seq<int>, ids2: seq<int>, sel: set<string>)
    ensures Removals(side, nav, ids1 + ids2, sel)
         == Removals(side, nav, ids1, sel) + Removals(side, nav, ids2, sel)
    decreases |ids2|
  {
    if ids2 == [] {
      assert ids1 + ids2 == ids1;
    } else {
      var init2 := ids2[..|ids2| - 1];
      assert (ids1 + ids2)[..|ids1 + ids2| - 1] == ids1 + init2;
      RemovalsInOrder(side, nav, ids1, init2, sel);
    }
  }

  /** When the selection already agrees with the collection on every id of
      the universe, reconciling appends nothing and removes nothing. */
  lemma InSyncNoChange(side: Side, owner: int, nav: seq<BookAuthor>, ids: seq<int>, sel: set<string>)
    requires forall u :: u in ids ==> (IntToString(u) in sel <==> u in Others(side, nav))
    ensures Additions(side, owner, ids, sel, Others(side, nav)) == []
    ensures Removals(side, nav, ids, sel) == []
  {
    var adds := Additions(side, owner, ids, sel, Others(side, nav));
    var rm := Removals(side, nav, ids, sel);
    AdditionsSpec(side, owner, ids, sel, Others(side, nav));
    RemovalsSpec(side, nav, ids, sel);
  }

  /** The collection an entity loads holds the ids it is associated with. */
  lemma OwnedOthers(side: Side, table: seq<BookAuthor>, owner: int)
    ensures Others(side, Owned(side, table, owner)) == Associated(side, table, owner)
  {
    var nav := Owned(side, table, owner);
    forall u | u in Associated(side, table, owner) ensures u in Others(side, nav) {
      var r :| r in table && Owner(side, r) == owner && Other(side, r) == u;
      assert r in nav;
    }
  }

  /** Reconciling is idempotent: loading the entity again after the commit
      and reconciling with the same selection appends nothing and removes
      nothing. */
  lemma ReconcileIdempotent(side: Side, owner: int, table: seq<BookAuthor>, nav: seq<BookAuthor>, ids: seq<int>, sel: set<string>)
    requires OwnedBy(side, nav, owner)
    requires forall u :: u in Others(side, nav) ==> u in ids
    ensures var t := Committed(side, owner, table, Removals(side, nav, ids, sel),
                               nav + Additions(side, owner, ids, sel, Others(side, nav)));
            var nav' := Owned(side, t, owner);
            Additions(side, owner, ids, sel, Others(side, nav')) == [] &&
            Removals(side, nav', ids, sel) == []
  {
    var t := Committed(side, owner, table, Removals(side, nav, ids, sel),
                       nav + Additions(side, owner, ids, sel, Others(side, nav)));
    ReconcileAssociates(side, owner, table, nav, ids, sel);
    OwnedOthers(side, t, owner);
    InSyncNoChange(side, owner, Owned(side, t, owner), ids, sel);
  }

  /** A submitted string that is the decimal text of no universe id changes
      nothing: the same rows are appended and marked for removal with or
      without it. */
  lemma {:induction false} UnknownIgnored(side: Side, owner: int, nav: seq<BookAuthor>, ids: seq<int>, sel: set<string>, have: set<int>, s: string)
    requires forall u :: u in ids ==> IntToString(u) != s
    ensures Additions(side, owner, ids, sel + {s}, have) == Additions(side, owner, ids, sel, have)
    ensures Removals(side, nav, ids, sel + {s}) == Removals(side, nav, ids, sel)
    decreases |ids|
  {
    if ids != [] {
      UnknownIgnored(side, owner, nav, ids[..|ids| - 1], sel, have, s);
    }
  }

  /** Submitting a text with a leading zero, such as "02" for the id 2,
      changes nothing. */
  lemma LeadingZeroIgnored(side: Side, owner: int, nav: seq<BookAuthor>, ids: seq<int>, sel: set<string>, have: set<int>, s: string)
    requires |s| >= 2 && s[0] == '0'
    ensures Additions(side, owner, ids, sel + {s}, have) == Additions(side, owner, ids, sel, have)
    ensures Removals(side, nav, ids, sel + {s}) == Removals(side, nav, ids, sel)
  {
    forall u | u in ids ensures IntToString(u) != s {
      LeadingZeroIsNoId(s, u);
    }
    UnknownIgnored(side, owner, nav, ids, sel, have, s);
  }

  /** Emptying an entity's collection and committing leaves it associated
      with nothing. */
  lemma ClearAssociatesNothing(side: Side, owner: int, table: seq<BookAuthor>)
    ensures Associated(side, Committed(side, owner, table, [], []), owner) == {}
  {
    CommitAssociates(side, owner, table, [], []);
  }

  /** A commit touches no other entity's rows when the collection and the
      removals belong to the owner. */
  lemma OtherOwnersUntouched(side: Side, owner: int, table: seq<BookAuthor>, removed: seq<BookAuthor>, nav: seq<BookAuthor>, r: BookAuthor)
    requires OwnedBy(side, nav, owner) && OwnedBy(side, removed, owner)
    requires Owner(side, r) != owner
    ensures r in Committed(side, owner, table, removed, nav) <==> r in table
  {
  }

  /** A commit keeps the table free of repeated rows. */
  lemma CommitDistinct(side: Side, owner: int, table: seq<BookAuthor>, removed: seq<BookAuthor>, nav: seq<BookAuthor>)
    requires Distinct(table) && Distinct(nav)
    ensures Distinct(Committed(side, owner, table, removed, nav))
  {
    DistinctConcat(Kept(side, owner, table, removed, nav), Inserted(nav, table, removed));
  }

  /** Submitting, unchanged, the decimal texts of the ids a collection
      already holds (what an edit form posts when the user changes no
      checkbox) appends nothing and removes nothing. */
  lemma UnchangedFormNoChange(side: Side, owner: int, nav: seq<BookAuthor>, ids: seq<int>, sel: set<string>)
    requires sel == set u | u in ids && u in Others(side, nav) :: IntToString(u)
    ensures Additions(side, owner, ids, sel, Others(side, nav)) == []
    ensures Removals(side, nav, ids, sel) == []
  {
    forall u | u in ids ensures IntToString(u) in sel <==> u in Others(side, nav) {
      if IntToString(u) in sel {
        var v :| v in ids && v in Others(side, nav) && IntToString(v) == IntToString(u);
        IntToStringInjective(u, v);
      }
    }
    InSyncNoChange(side, owner, nav, ids, sel);
  }
}
