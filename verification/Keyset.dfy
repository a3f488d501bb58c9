/**
 * Paging an assayer's feed by cursor instead of by offset
 * (packages/backend/scripts/test-keyset-plan.ts). Times are microseconds, as the table stores them.
 */
module Keyset {

  /** A row the feed's WHERE clause selects: one assayer's active assignments. */
  datatype Row = Row(id: int, createdAt: int)

  /** Where a page left off: the (created_at, id) pair the next page must stay below. */
  datatype Cursor = Cursor(createdAt: int, id: int)

  function CursorOf(r: Row): Cursor { Cursor(r.createdAt, r.id) }

  /** The row comparison (a.created_at, a.id) < (c1, c2). */
  predicate BelowTuple(r: Row, c: Cursor)
  {
    if r.createdAt == c.createdAt then r.id < c.id else r.createdAt < c.createdAt
  }

  /** The same written out: a.created_at < c1 OR (a.created_at = c1 AND a.id < c2). */
  predicate BelowDisjunctive(r: Row, c: Cursor)
  {
    r.createdAt < c.createdAt || (r.createdAt == c.createdAt && r.id < c.id)
  }

  /** ORDER BY created_at DESC, id DESC: a comes before b. */
  predicate Precedes(a: Row, b: Row) { BelowTuple(b, CursorOf(a)) }

  /** The primary key. */
  ghost predicate UniqueIds(rows: set<Row>)
  {
    forall a, b :: a in rows && b in rows && a.id == b.id ==> a == b
  }

  // ---- Ordering ----

  ghost predicate IsOrdering(s: seq<Row>, rows: set<Row>)
  {
    && (forall r :: r in s <==> r in rows)
    && (forall i, j :: 0 <= i < j < |s| ==> Precedes(s[i], s[j]))
  }

  lemma {:induction false} HasFirst(rows: set<Row>) returns (top: Row)
    requires UniqueIds(rows) && rows != {}
    ensures top in rows && forall r :: r in rows && r != top ==> Precedes(top, r)
  {
    var x :| x in rows;
    if rows == {x} {
      top := x;
    } else {
      var rest := rows - {x};
      assert rest != {};
      var y := HasFirst(rest);
      assert x.id != y.id;
      top := if Precedes(x, y) then x else y;
      forall r | r in rows && r != top ensures Precedes(top, r) {
        assert r == x || r == y || Precedes(y, r);
      }
    }
  }

  /** The rows in feed order. */
  ghost function Ordered(rows: set<Row>): (s: seq<Row>)
    requires UniqueIds(rows)
    ensures IsOrdering(s, rows)
  {
    if rows == {} then []
    else
      assert exists top :: top in rows && forall r :: r in rows && r != top ==> Precedes(top, r) by {
        var top := HasFirst(rows);
      }
      var top :| top in rows && forall r :: r in rows && r != top ==> Precedes(top, r);
      [top] + Ordered(rows - {top})
  }

  lemma SameEmptiness(s: seq<Row>, t: seq<Row>, rows: set<Row>)
    requires IsOrdering(s, rows) && IsOrdering(t, rows)
    ensures s == [] <==> t == []
  {
    if s != [] {
      assert s[0] in t;
    }
    if t != [] {
      assert t[0] in s;
    }
  }

  /** There is only one way to put rows in feed order. */
  lemma {:induction false} OneOrdering(s: seq<Row>, t: seq<Row>, rows: set<Row>)
    requires IsOrdering(s, rows) && IsOrdering(t, rows)
    ensures s == t
    decreases |s|
  {
    SameEmptiness(s, t, rows);
    if s != [] {
      assert s[0] in t && t[0] in s;
      assert s[0] == t[0];
      IsOrderingTail(s, rows);
      IsOrderingTail(t, rows);
      OneOrdering(s[1..], t[1..], rows - {s[0]});
      assert s == [s[0]] + s[1..] && t == [t[0]] + t[1..];
    }
  }

  lemma IsOrderingTail(s: seq<Row>, rows: set<Row>)
    requires IsOrdering(s, rows) && s != []
    ensures IsOrdering(s[1..], rows - {s[0]})
  {
    forall r ensures r in s[1..] <==> r in rows - {s[0]} {
      if r in s[1..] {
        var i :| 0 <= i < |s[1..]| && s[1..][i] == r;
        assert s[i + 1] == r && Precedes(s[0], s[i + 1]);
      }
      if r in rows - {s[0]} {
        assert r in s;
      }
    }
  }

  /** The feed holds every row and runs from the newest to the oldest, the higher id first within one instant. */
  lemma {:induction false} NewestFirst(rows: set<Row>, i: nat, j: nat)
    requires UniqueIds(rows) && i < j < |Ordered(rows)|
    ensures var a, b := Ordered(rows)[i], Ordered(rows)[j];
      a in rows && b in rows && (a.createdAt > b.createdAt || (a.createdAt == b.createdAt && a.id > b.id))
  {
    var feed := Ordered(rows);
    assert feed[i] in feed && feed[j] in feed && Precedes(feed[i], feed[j]);
  }

  // ---- The queries ----

  function Take<T>(s: seq<T>, limit: nat): seq<T>
  {
    if |s| <= limit then s else s[..limit]
  }

  function Drop<T>(s: seq<T>, offset: nat): seq<T>
  {
    if |s| <= offset then [] else s[offset..]
  }

  /** LIMIT / OFFSET over the whole feed. */
  ghost function OffsetPage(rows: set<Row>, offset: nat, limit: nat): seq<Row>
    requires UniqueIds(rows)
  {
    Take(Drop(Ordered(rows), offset), limit)
  }

  ghost function BelowRows(rows: set<Row>, c: Cursor): set<Row>
  {
    set r | r in rows && BelowTuple(r, c)
  }

  /** The tuple query. */
  ghost function TuplePage(rows: set<Row>, c: Cursor, limit: nat): seq<Row>
    requires UniqueIds(rows)
  {
    Take(Ordered(BelowRows(rows, c)), limit)
  }

  /** The disjunctive query. */
  ghost function DisjunctivePage(rows: set<Row>, c: Cursor, limit: nat): seq<Row>
    requires UniqueIds(rows)
  {
    Take(Ordered(set r | r in rows && BelowDisjunctive(r, c)), limit)
  }

  lemma QueriesAgree(rows: set<Row>, c: Cursor, limit: nat)
    requires UniqueIds(rows)
    ensures DisjunctivePage(rows, c, limit) == TuplePage(rows, c, limit)
  {
    assert (set r | r in rows && BelowDisjunctive(r, c)) == BelowRows(rows, c);
  }

  /** Of the rows of a feed, those below row k are those after it. */
  lemma BelowIsAfter(feed: seq<Row>, rows: set<Row>, k: nat, i: nat)
    requires IsOrdering(feed, rows) && k < |feed| && i < |feed|
    ensures BelowTuple(feed[i], CursorOf(feed[k])) <==> i > k
  {
    if i < k {
      assert Precedes(feed[i], feed[k]);
    } else if i > k {
      assert Precedes(feed[k], feed[i]);
    }
  }

  lemma RestIsOrdering(feed: seq<Row>, rows: set<Row>, k: nat)
    requires IsOrdering(feed, rows) && k < |feed|
    ensures IsOrdering(feed[k + 1..], BelowRows(rows, CursorOf(feed[k])))
  {
    var rest := feed[k + 1..];
    forall r | r in rest ensures r in BelowRows(rows, CursorOf(feed[k])) {
      var i :| 0 <= i < |rest| && rest[i] == r;
      BelowIsAfter(feed, rows, k, k + 1 + i);
      assert feed[k + 1 + i] in feed;
    }
    forall r | r in BelowRows(rows, CursorOf(feed[k])) ensures r in rest {
      assert r in feed;
      var i: nat :| i < |feed| && feed[i] == r;
      BelowIsAfter(feed, rows, k, i);
      assert r == rest[i - k - 1];
    }
  }

  /** What lies below row k of the feed is the feed from k + 1 on. */
  lemma {:induction false} BelowIsTheRest(rows: set<Row>, k: nat)
    requires UniqueIds(rows) && k < |Ordered(rows)|
    ensures Ordered(BelowRows(rows, CursorOf(Ordered(rows)[k]))) == Ordered(rows)[k + 1..]
  {
    var feed := Ordered(rows);
    var below := BelowRows(rows, CursorOf(feed[k]));
    RestIsOrdering(feed, rows, k);
    OneOrdering(Ordered(below), feed[k + 1..], below);
  }

  /** With row k as the cursor, both keyset queries return what OFFSET k + 1 returns. */
  lemma {:induction false} KeysetIsOffset(rows: set<Row>, k: nat, limit: nat)
    requires UniqueIds(rows) && k < |Ordered(rows)|
    ensures var c := CursorOf(Ordered(rows)[k]);
      TuplePage(rows, c, limit) == OffsetPage(rows, k + 1, limit) == DisjunctivePage(rows, c, limit)
  {
    BelowIsTheRest(rows, k);
    QueriesAgree(rows, CursorOf(Ordered(rows)[k]), limit);
  }

  // ---- Reading the feed page by page while rows keep arriving ----

  /** The cursor after a page: its last row, or the old one after an empty page. */
  function NextCursor(page: seq<Row>, c: Cursor): Cursor
  {
    if page == [] then c else CursorOf(page[|page| - 1])
  }

  ghost predicate AllUnique(tables: seq<set<Row>>)
  {
    forall i :: 0 <= i < |tables| ==> UniqueIds(tables[i])
  }

  /** One page from each state of the table in turn, each starting below the last row of the one before. */
  ghost function ReadPages(tables: seq<set<Row>>, c: Cursor, limit: nat): seq<Row>
    requires AllUnique(tables)
  {
    if tables == [] then []
    else
      var page := TuplePage(tables[0], c, limit);
      page + ReadPages(tables[1..], NextCursor(page, c), limit)
  }

  /** The two tables differ only at or ahead of the cursor. */
  ghost predicate SameBelow(before: set<Row>, after: set<Row>, c: Cursor)
  {
    forall r :: BelowTuple(r, c) ==> (r in before <==> r in after)
  }

  lemma SameBelowRows(before: set<Row>, after: set<Row>, c: Cursor)
    requires SameBelow(before, after, c)
    ensures BelowRows(after, c) == BelowRows(before, c)
  {
  }

  /** Between pages the table changed only at or ahead of the cursor. */
  ghost predicate ChangedAheadOnly(tables: seq<set<Row>>, c: Cursor, limit: nat)
    requires AllUnique(tables)
  {
    |tables| <= 1 ||
    var next := NextCursor(TuplePage(tables[0], c, limit), c);
    && SameBelow(tables[0], tables[1], next)
    && ChangedAheadOnly(tables[1..], next, limit)
  }

  lemma TakeMore<T>(s: seq<T>, limit: nat, m: nat, more: nat)
    requires m == |Take(s, limit)|
    ensures Take(s, limit) + Take(s[m..], more) == Take(s, limit + more)
  {
  }

  /** Below a row of what is below c is below that row. */
  lemma BelowBelow(rows: set<Row>, c: Cursor, r: Row)
    requires r in BelowRows(rows, c)
    ensures BelowRows(BelowRows(rows, c), CursorOf(r)) == BelowRows(rows, CursorOf(r))
  {
  }

  /** What is below the next cursor is what the page left over, before and after the change. */
  lemma RestAfterPage(table: set<Row>, c: Cursor, limit: nat)
    requires UniqueIds(table) && limit > 0
    ensures var feed, page := Ordered(BelowRows(table, c)), TuplePage(table, c, limit);
      Ordered(BelowRows(table, NextCursor(page, c))) == feed[|page|..]
  {
    var rows := BelowRows(table, c);
    var feed, page := Ordered(rows), TuplePage(table, c, limit);
    if page != [] {
      var k := |page| - 1;
      assert page[k] == feed[k] && feed[k] in rows;
      BelowIsTheRest(rows, k);
      BelowBelow(table, c, feed[k]);
    }
  }

  /**
   * Chaining each page's last row as the next cursor reads the feed with no gap and no repeat:
   * n pages are its first n x limit rows, however many rows arrived ahead of the cursor meanwhile.
   */
  lemma {:induction false} PagesAreTheFeed(tables: seq<set<Row>>, c: Cursor, limit: nat)
    requires AllUnique(tables)
    requires tables != [] && limit > 0 && ChangedAheadOnly(tables, c, limit)
    ensures UniqueIds(tables[0])
    ensures ReadPages(tables, c, limit) == Take(Ordered(BelowRows(tables[0], c)), limit * |tables|)
  {
    var feed, page := Ordered(BelowRows(tables[0], c)), TuplePage(tables[0], c, limit);
    if |tables| > 1 {
      var next, later := NextCursor(page, c), tables[1..];
      PagesAreTheFeed(later, next, limit);
      SameBelowRows(tables[0], later[0], next);
      RestAfterPage(tables[0], c, limit);
      OneMorePage(feed, page, ReadPages(later, next, limit), limit, |later|);
    } else {
      assert page + [] == page;
    }
  }

  /** From a cursor ahead of every row, which is what the first page reads from, that is the feed itself. */
  lemma {:induction false} PagesFromTheTop(tables: seq<set<Row>>, c: Cursor, limit: nat)
    requires AllUnique(tables)
    requires tables != [] && limit > 0 && ChangedAheadOnly(tables, c, limit)
    requires forall r <- tables[0] :: BelowTuple(r, c)
    ensures UniqueIds(tables[0])
    ensures ReadPages(tables, c, limit) == OffsetPage(tables[0], 0, limit * |tables|)
  {
    PagesAreTheFeed(tables, c, limit);
    assert BelowRows(tables[0], c) == tables[0];
  }

  lemma OneMorePage<T>(feed: seq<T>, page: seq<T>, rest: seq<T>, limit: nat, n: nat)
    requires page == Take(feed, limit) && rest == Take(feed[|page|..], limit * n)
    ensures page + rest == Take(feed, limit * (n + 1))
  {
    TakeMore(feed, limit, |page|, limit * n);
    assert limit + limit * n == limit * (n + 1);
  }

  /** Rows inserted at or ahead of the cursor do not show in any page below it. */
  lemma InsertedAhead(rows: set<Row>, added: set<Row>, c: Cursor, limit: nat)
    requires UniqueIds(rows + added) && forall r <- added :: !BelowTuple(r, c)
    ensures TuplePage(rows + added, c, limit) == TuplePage(rows, c, limit)
  {
    assert BelowRows(rows + added, c) == BelowRows(rows, c);
  }

  // ---- The cursor as the script builds it ----

  /** A time printed as an ISO string keeps milliseconds only. */
  function ToMilliseconds(t: int): int { t - t % 1000 }

  function IsoCursor(r: Row): Cursor { Cursor(ToMilliseconds(r.createdAt), r.id) }

  /** Row s, later in the feed than r, falls between r's time and that time cut to milliseconds. */
  predicate InTheCut(s: Row, r: Row)
  {
    && ToMilliseconds(r.createdAt) <= s.createdAt <= r.createdAt
    && (s.createdAt == r.createdAt ==> s.id < r.id)
    && (s.createdAt == ToMilliseconds(r.createdAt) ==> s.id >= r.id)
  }

  /** The rows a truncated cursor jumps over. */
  ghost function Skipped(rows: set<Row>, r: Row): set<Row>
  {
    set s | s in rows && InTheCut(s, r)
  }

  lemma BelowIso(rows: set<Row>, r: Row)
    ensures BelowRows(rows, IsoCursor(r)) == BelowRows(rows, CursorOf(r)) - Skipped(rows, r)
  {
  }

  /** If anything is skipped, the very next row of the feed is. */
  lemma {:induction false} NextRowSkipped(rows: set<Row>, k: nat)
    requires UniqueIds(rows) && k < |Ordered(rows)| && Skipped(rows, Ordered(rows)[k]) != {}
    ensures k + 1 < |Ordered(rows)| && Ordered(rows)[k + 1] in Skipped(rows, Ordered(rows)[k])
  {
    var feed := Ordered(rows);
    var s :| s in Skipped(rows, feed[k]);
    assert s in feed;
    var i :| 0 <= i < |feed| && feed[i] == s;
    assert i < k ==> Precedes(feed[i], feed[k]);
    assert k + 1 <= i;
    assert feed[k + 1] in feed && Precedes(feed[k], feed[k + 1]);
    assert k + 1 < i ==> Precedes(feed[k + 1], feed[i]);
  }

  lemma {:induction false} SkippingShows(rows: set<Row>, k: nat, limit: nat)
    requires UniqueIds(rows) && k < |Ordered(rows)| && limit > 0 && Skipped(rows, Ordered(rows)[k]) != {}
    ensures TuplePage(rows, IsoCursor(Ordered(rows)[k]), limit) != OffsetPage(rows, k + 1, limit)
  {
    var r := Ordered(rows)[k];
    NextRowSkipped(rows, k);
    BelowIso(rows, r);
    assert OffsetPage(rows, k + 1, limit)[0] == Ordered(rows)[k + 1];
    var page := TuplePage(rows, IsoCursor(r), limit);
    if page != [] {
      assert page[0] in Ordered(BelowRows(rows, IsoCursor(r)));
    }
  }

  /**
   * The script's cursor goes through an ISO string. Its page agrees with OFFSET k + 1 exactly when
   * no later row was created in the cursor's millisecond at or after the truncated instant.
   */
  lemma {:induction false} IsoCursorIsOffset(rows: set<Row>, k: nat, limit: nat)
    requires UniqueIds(rows) && k < |Ordered(rows)| && limit > 0
    ensures TuplePage(rows, IsoCursor(Ordered(rows)[k]), limit) == OffsetPage(rows, k + 1, limit)
      <==> Skipped(rows, Ordered(rows)[k]) == {}
  {
    KeysetIsOffset(rows, k, limit);
    BelowIso(rows, Ordered(rows)[k]);
    if Skipped(rows, Ordered(rows)[k]) == {} {
      assert BelowRows(rows, IsoCursor(Ordered(rows)[k])) == BelowRows(rows, CursorOf(Ordered(rows)[k]));
    } else {
      SkippingShows(rows, k, limit);
    }
  }

  /** Two rows of one millisecond are enough: the second page misses the older of them. */
  lemma IsoCursorCanSkip(limit: nat)
    requires limit > 0
    ensures var newer, older := Row(2, 1_500), Row(1, 1_400);
      && UniqueIds({newer, older}) && Ordered({newer, older}) == [newer, older]
      && TuplePage({newer, older}, IsoCursor(newer), limit) == []
      && OffsetPage({newer, older}, 1, limit) == [older]
  {
    var newer, older := Row(2, 1_500), Row(1, 1_400);
    var rows := {newer, older};
    OneOrdering(Ordered(rows), [newer, older], rows);
    assert BelowRows(rows, IsoCursor(newer)) == {};
  }
}
