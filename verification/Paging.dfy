// ListFiles: filtering, ordering and paging of the live files, and what a
// client sees that follows next_cursor from page to page.
module Paging {
  import opened Schema
  import Decimal
  import Like
  import Text

  datatype Options = Options(kind: string, sort: string, desc: bool, search: string, limit: int, cursor: string)

  datatype Page = Page(items: seq<Id>, next: string, total: nat)

  type Files = map<Id, FileRow>

  // WHERE deleted_at IS NULL [AND kind = ?] [AND name LIKE ? ESCAPE '\']
  function Selected(files: Files, o: Options): set<Id> {
    set id | id in files
             && files[id].deletedAt.None?
             && (o.kind != "" ==> files[id].kind == o.kind)
             && (Text.TrimSpace(o.search) != "" ==>
                   Like.Matches("%" + Like.EscapeLike(Text.TrimSpace(o.search)) + "%", files[id].name))
  }

  datatype Column = Name | Size | Created | Updated

  // Anything unknown sorts by creation.
  function ColumnOf(sort: string): Column {
    if sort == "name" then Name
    else if sort == "size" then Size
    else if sort == "updated" then Updated
    else Created
  }

  function Number(row: FileRow, c: Column): int {
    match c
    case Name => 0
    case Size => row.size
    case Created => row.createdAt
    case Updated => row.updatedAt
  }

  // ORDER BY column, id, ascending.
  predicate Ascending(files: Files, c: Column, a: Id, b: Id)
    requires a in files && b in files
  {
    if c == Name && files[a].name != files[b].name then Text.Less(files[a].name, files[b].name)
    else if Number(files[a], c) != Number(files[b], c) then Number(files[a], c) < Number(files[b], c)
    else Text.Less(a, b)
  }

  predicate Before(files: Files, o: Options, a: Id, b: Id)
    requires a in files && b in files
  {
    if o.desc then Ascending(files, ColumnOf(o.sort), b, a) else Ascending(files, ColumnOf(o.sort), a, b)
  }

  lemma AscendingIsTotal(files: Files, c: Column, a: Id, b: Id)
    requires a in files && b in files
    ensures a == b || Ascending(files, c, a, b) || Ascending(files, c, b, a)
    ensures !(Ascending(files, c, a, b) && Ascending(files, c, b, a))
    ensures !Ascending(files, c, a, a)
  {
    Text.LessTotal(files[a].name, files[b].name);
    Text.LessTotal(a, b);
    Text.LessTotal(a, a);
  }

  lemma {:induction false} AscendingIsTransitive(files: Files, c: Column, a: Id, b: Id, d: Id)
    requires a in files && b in files && d in files
    requires Ascending(files, c, a, b) && Ascending(files, c, b, d)
    ensures Ascending(files, c, a, d)
  {
    var na, nb, nd := files[a].name, files[b].name, files[d].name;
    if c == Name && na != nb && nb != nd {
      Text.LessTransitive(na, nb, nd);
      Text.LessTotal(na, nb);
    }
    if Text.Less(a, b) && Text.Less(b, d) {
      Text.LessTransitive(a, b, d);
    }
  }

  // The rows in the order the query returns them: the order is total, so there
  // is only one.
  ghost predicate InOrder(files: Files, o: Options, rows: seq<Id>) {
    && (forall i | 0 <= i < |rows| :: rows[i] in files)
    && (forall i, j | 0 <= i < j < |rows| :: Before(files, o, rows[i], rows[j]))
  }

  ghost predicate IsListing(files: Files, o: Options, ids: set<Id>, rows: seq<Id>) {
    InOrder(files, o, rows) && (forall id :: id in rows <==> id in ids)
  }

  lemma {:induction false} ListingExists(files: Files, o: Options, ids: set<Id>) returns (rows: seq<Id>)
    requires ids <= files.Keys
    ensures IsListing(files, o, ids, rows) && |rows| == |ids|
  {
    if ids == {} {
      rows := [];
    } else {
      var first := FirstOf(files, o, ids);
      rows := ListingExists(files, o, ids - {first});
      rows := [first] + rows;
    }
  }

  lemma {:induction false} FirstOf(files: Files, o: Options, ids: set<Id>) returns (first: Id)
    requires ids != {} && ids <= files.Keys
    ensures first in ids && forall id | id in ids && id != first :: Before(files, o, first, id)
    decreases |ids|
  {
    var some :| some in ids;
    if ids == {some} {
      first := some;
    } else {
      var rest := FirstOf(files, o, ids - {some});
      AscendingIsTotal(files, ColumnOf(o.sort), some, rest);
      first := if Before(files, o, some, rest) then some else rest;
      forall id | id in ids && id != first
        ensures Before(files, o, first, id)
      {
        if id != some && id != rest {
          assert id in ids - {some} && Before(files, o, rest, id);
        }
        if first == some && id != rest {
          if o.desc { AscendingIsTransitive(files, ColumnOf(o.sort), id, rest, some); }
          else { AscendingIsTransitive(files, ColumnOf(o.sort), some, rest, id); }
        }
      }
    }
  }

  lemma {:induction false} ListingIsUnique(files: Files, o: Options, ids: set<Id>, a: seq<Id>, b: seq<Id>)
    requires IsListing(files, o, ids, a) && IsListing(files, o, ids, b)
    ensures a == b
    decreases |a|
  {
    EmptyListing(files, o, ids, a);
    EmptyListing(files, o, ids, b);
    if a != [] {
      SameFirst(files, o, ids, a, b);
      TailListing(files, o, ids, a);
      TailListing(files, o, ids, b);
      ListingIsUnique(files, o, ids - {a[0]}, a[1..], b[1..]);
      assert a == [a[0]] + a[1..] && b == [b[0]] + b[1..];
    }
  }

  lemma {:induction false} EmptyListing(files: Files, o: Options, ids: set<Id>, rows: seq<Id>)
    requires IsListing(files, o, ids, rows)
    ensures rows == [] <==> ids == {}
  {
    if rows == [] {
      assert forall id :: id in ids ==> id in rows;
    } else {
      assert rows[0] in ids;
    }
  }

  lemma {:induction false} SameFirst(files: Files, o: Options, ids: set<Id>, a: seq<Id>, b: seq<Id>)
    requires IsListing(files, o, ids, a) && IsListing(files, o, ids, b) && a != [] && b != []
    ensures a[0] == b[0]
  {
    assert a[0] in b && b[0] in a;
    AscendingIsTotal(files, ColumnOf(o.sort), a[0], b[0]);
  }

  lemma {:induction false} TailListing(files: Files, o: Options, ids: set<Id>, rows: seq<Id>)
    requires IsListing(files, o, ids, rows) && rows != []
    ensures IsListing(files, o, ids - {rows[0]}, rows[1..])
  {
    forall id
      ensures id in rows[1..] <==> id in ids - {rows[0]}
    {
      if id in rows && id != rows[0] {
        var i :| 0 <= i < |rows| && rows[i] == id;
        assert rows[1..][i - 1] == id;
      }
      if id in rows[1..] {
        var i :| 0 <= i < |rows[1..]| && rows[1..][i] == id;
        assert rows[i + 1] == id;
        AscendingIsTotal(files, ColumnOf(o.sort), rows[0], rows[0]);
        assert Before(files, o, rows[0], rows[i + 1]);
      }
    }
  }

  lemma SomeListing(files: Files, o: Options)
    ensures exists rows :: IsListing(files, o, Selected(files, o), rows) && |rows| == |Selected(files, o)|
  {
    var rows := ListingExists(files, o, Selected(files, o));
  }

  ghost function Listing(files: Files, o: Options): (rows: seq<Id>)
    ensures IsListing(files, o, Selected(files, o), rows)
    ensures |rows| == |Selected(files, o)|
  {
    SomeListing(files, o);
    var rows :| IsListing(files, o, Selected(files, o), rows) && |rows| == |Selected(files, o)|;
    rows
  }

  // ---------------------------------------------------------------------------
  // Pages
  // ---------------------------------------------------------------------------

  function PageSize(limit: int): (n: int)
    ensures 1 <= n <= 200
  {
    if limit <= 0 || limit > 200 then 50 else limit
  }

  // A cursor that is not a natural number starts from the beginning.
  function Offset(cursor: string): nat {
    var n := Decimal.Atoi(cursor);
    if cursor != "" && n.Some? && n.value >= 0 then n.value else 0
  }

  function Min(a: int, b: int): int {
    if a <= b then a else b
  }

  // One call of ListFiles: LIMIT and OFFSET cut a page out of the listing.
  ghost function ListFiles(files: Files, o: Options): Page {
    var rows := Listing(files, o);
    var offset := Offset(o.cursor);
    var items := rows[Min(offset, |rows|)..Min(offset + PageSize(o.limit), |rows|)];
    Page(items,
         if offset + |items| < |rows| then Decimal.Itoa(offset + |items|) else "",
         |rows|)
  }

  // COUNT(*) is an int64.
  predicate Countable(files: Files) {
    |files| < Decimal.INT64_LIMIT
  }

  lemma NextIsFurther(files: Files, o: Options)
    requires Countable(files) && ListFiles(files, o).next != ""
    ensures Offset(o.cursor) < Offset(ListFiles(files, o).next) == Offset(o.cursor) + |ListFiles(files, o).items|
    ensures Offset(ListFiles(files, o).next) < ListFiles(files, o).total
    ensures Listing(files, o.(cursor := ListFiles(files, o).next)) == Listing(files, o)
  {
    var p := ListFiles(files, o);
    SelectedIsSmall(files, o);
    Decimal.AtoiOfItoa(Offset(o.cursor) + |p.items|);
    SameListing(files, o, o.(cursor := p.next));
  }

  lemma SelectedIsSmall(files: Files, o: Options)
    ensures |Selected(files, o)| <= |files|
  {
    assert Selected(files, o) <= files.Keys;
    assert files.Keys == Selected(files, o) + (files.Keys - Selected(files, o));
  }

  // Cursor and limit do not change what is listed.
  lemma SameListing(files: Files, a: Options, b: Options)
    requires a.kind == b.kind && a.sort == b.sort && a.desc == b.desc && a.search == b.search
    ensures Listing(files, a) == Listing(files, b)
  {
    assert Selected(files, a) == Selected(files, b);
    assert IsListing(files, a, Selected(files, a), Listing(files, b));
    ListingIsUnique(files, a, Selected(files, a), Listing(files, a), Listing(files, b));
  }

  // The pages a client sees that follows next_cursor until it is empty.
  ghost function Walk(files: Files, o: Options): seq<Id>
    requires Countable(files)
    decreases |Listing(files, o)| - Offset(o.cursor)
  {
    var p := ListFiles(files, o);
    if p.next == "" then p.items
    else
      NextIsFurther(files, o);
      p.items + Walk(files, o.(cursor := p.next))
  }

  // A page is the next stretch of the listing, and the cursor is where it ends.
  lemma {:induction false} PageIsAStretch(files: Files, o: Options)
    requires Offset(o.cursor) <= |Listing(files, o)|
    ensures var rows, p := Listing(files, o), ListFiles(files, o);
            var end := Offset(o.cursor) + |p.items|;
            && end <= |rows| && p.items == rows[Offset(o.cursor)..end]
            && |p.items| == Min(if 1 <= o.limit <= 200 then o.limit else 50, |rows| - Offset(o.cursor))
            && (p.next == "" <==> end == |rows|)
            && p.total == |rows|
  {
    Decimal.ItoaReadsBack(Offset(o.cursor) + |ListFiles(files, o).items|);
  }

  lemma {:induction false} WalkIsTheRest(files: Files, o: Options)
    requires Countable(files) && Offset(o.cursor) <= |Listing(files, o)|
    ensures Walk(files, o) == Listing(files, o)[Offset(o.cursor)..]
    decreases |Listing(files, o)| - Offset(o.cursor)
  {
    var p := ListFiles(files, o);
    PageIsAStretch(files, o);
    if p.next != "" {
      NextIsFurther(files, o);
      var o' := o.(cursor := p.next);
      WalkIsTheRest(files, o');
      OnePageMore(Listing(files, o), Offset(o.cursor), Offset(p.next), p.items, Walk(files, o'));
    }
  }

  lemma {:induction false} OnePageMore(rows: seq<Id>, from: nat, mid: nat, page: seq<Id>, rest: seq<Id>)
    requires from <= mid <= |rows| && page == rows[from..mid] && rest == rows[mid..]
    ensures page + rest == rows[from..]
  {
  }

  // From the empty cursor the pages join up to the whole filtered listing in
  // its order, each live file that matches exactly once.
  lemma WalkSeesEverythingOnce(files: Files, o: Options)
    requires Countable(files) && o.cursor == ""
    ensures Walk(files, o) == Listing(files, o)
    ensures forall id :: id in Walk(files, o) <==> id in Selected(files, o)
    ensures forall i, j | 0 <= i < j < |Walk(files, o)| :: Walk(files, o)[i] != Walk(files, o)[j]
  {
    WalkIsTheRest(files, o);
    var rows := Listing(files, o);
    forall i, j | 0 <= i < j < |rows|
      ensures rows[i] != rows[j]
    {
      AscendingIsTotal(files, ColumnOf(o.sort), rows[i], rows[i]);
      assert Before(files, o, rows[i], rows[j]);
    }
  }

  // ---------------------------------------------------------------------------
  // What is listed, and in which order, in terms of the rows
  // ---------------------------------------------------------------------------

  // Live, of the kind asked for if there is one, and with the search text
  // somewhere in its name.
  ghost predicate AskedFor(row: FileRow, o: Options) {
    && row.deletedAt.None?
    && (o.kind == "" || row.kind == o.kind)
    && Like.Contains(Text.TrimSpace(o.search), row.name)
  }

  lemma SelectedIffAskedFor(files: Files, o: Options, id: Id)
    ensures id in Selected(files, o) <==> id in files && AskedFor(files[id], o)
  {
    if id in files {
      var s := Text.TrimSpace(o.search);
      Like.SearchFindsSubstrings(s, files[id].name);
      if s == "" {
        assert Like.OccursAt(s, files[id].name, 0);
      }
    }
  }

  // By the column, and by identifier where the column is the same.
  predicate NumbersInLine(x: int, y: int, a: Id, b: Id, desc: bool) {
    if desc then x > y || (x == y && Text.Less(b, a)) else x < y || (x == y && Text.Less(a, b))
  }

  predicate NamesInLine(x: string, y: string, a: Id, b: Id, desc: bool) {
    if desc then Text.Less(y, x) || (x == y && Text.Less(b, a)) else Text.Less(x, y) || (x == y && Text.Less(a, b))
  }

  predicate InLine(x: FileRow, y: FileRow, a: Id, b: Id, o: Options) {
    if o.sort == "name" then NamesInLine(x.name, y.name, a, b, o.desc)
    else if o.sort == "size" then NumbersInLine(x.size, y.size, a, b, o.desc)
    else if o.sort == "updated" then NumbersInLine(x.updatedAt, y.updatedAt, a, b, o.desc)
    else NumbersInLine(x.createdAt, y.createdAt, a, b, o.desc)
  }

  lemma BeforeIsInLine(files: Files, o: Options, a: Id, b: Id)
    requires a in files && b in files && Before(files, o, a, b)
    ensures InLine(files[a], files[b], a, b, o)
  {
  }

  // The pages join up to every live file asked for, each once, ascending or
  // descending in the column named.
  lemma WalkIsWhatWasAskedFor(files: Files, o: Options)
    requires Countable(files) && o.cursor == ""
    ensures forall id :: id in Walk(files, o) <==> id in files && AskedFor(files[id], o)
    ensures var rows := Walk(files, o);
            forall i, j | 0 <= i < j < |rows| ::
              rows[i] in files && rows[j] in files && InLine(files[rows[i]], files[rows[j]], rows[i], rows[j], o)
  {
    WalkSeesEverythingOnce(files, o);
    var rows := Walk(files, o);
    forall id
      ensures id in rows <==> id in files && AskedFor(files[id], o)
    {
      SelectedIffAskedFor(files, o, id);
    }
    forall i, j | 0 <= i < j < |rows|
      ensures rows[i] in files && rows[j] in files && InLine(files[rows[i]], files[rows[j]], rows[i], rows[j], o)
    {
      BeforeIsInLine(files, o, rows[i], rows[j]);
    }
  }

  // A cursor with anything but digits in it, a sign in front aside, starts from
  // the beginning.
  lemma {:induction false} OddCursorStartsOver(cursor: string, i: nat)
    requires i < |cursor| && !('0' <= cursor[i] <= '9') && !(i == 0 && cursor[i] == '+')
    ensures Offset(cursor) == 0
  {
    if i > 0 {
      assert cursor[1..][i - 1] == cursor[i];
    }
  }
}
