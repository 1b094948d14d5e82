/** Cursor pages. A list reads one row more than it returns, drops it, and names its last item as
    the next cursor. Rows come in the order the query asks for; `cursor` with `skip: 1` yields the
    rows strictly after the cursor's row. */
module Pages {
  import opened Wrappers

  type Id = int

  datatype Row = Row(id: Id, at: int)
  type Table = seq<Row>

  datatype Page = Page(items: seq<Row>, next: Option<Id>)

  ghost predicate UniqueIds(t: Table) { forall i, j :: 0 <= i < j < |t| ==> t[i].id != t[j].id }

  function Clamp(limit: int): (take: nat)
    ensures 1 <= take <= 100
    ensures 1 <= limit <= 100 ==> take == limit
  {
    if limit < 1 then 1 else if limit > 100 then 100 else limit
  }

  /** The rows strictly after the row with the given id. */
  function AfterId(t: Table, id: Id): Table {
    if t == [] then [] else if t[0].id == id then t[1..] else AfterId(t[1..], id)
  }

  function After(t: Table, cursor: Option<Id>): Table {
    if cursor.None? then t else AfterId(t, cursor.value)
  }

  function Take(t: Table, n: nat): Table { if n < |t| then t[..n] else t }

  function PageOf(t: Table, cursor: Option<Id>, limit: int): Page {
    var take := Clamp(limit);
    var rest := After(t, cursor);
    if |rest| > take then Page(rest[..take], Some(rest[take - 1].id)) else Page(rest, None)
  }

  /** `list`, `listActive`: fetch one row too many, pop it, and take the cursor from the last item. */
  method List(t: Table, cursor: Option<Id>, limit: int) returns (page: Page)
    ensures page == PageOf(t, cursor, limit)
  {
    var take := Clamp(limit);
    var items := Take(After(t, cursor), take + 1);
    var hasMore := |items| > take;
    if hasMore {
      items := items[..|items| - 1];
      assert items == After(t, cursor)[..take];
    }
    page := Page(items, if hasMore then Some(items[|items| - 1].id) else None);
  }

  function Reversed(s: seq<Row>): seq<Row> { if s == [] then [] else Reversed(s[1..]) + [s[0]] }

  /** `history`: the page newest first, then handed out oldest first. */
  method History(newestFirst: Table, cursor: Option<Id>, limit: int) returns (page: Page)
    ensures page.items == Reversed(PageOf(newestFirst, cursor, limit).items)
    ensures page.next == PageOf(newestFirst, cursor, limit).next
  {
    var fetched := List(newestFirst, cursor, limit);
    page := Page(Reversed(fetched.items), fetched.next);
  }

  // ---------------------------------------------------------------- walks

  predicate Ended(ps: seq<Page>) { ps != [] && ps[|ps| - 1].next.None? }

  function CursorAfter(ps: seq<Page>): Option<Id> { if ps == [] then None else ps[|ps| - 1].next }

  /** At most `n` pages, following the cursor. Page k reads the table as it is then, with any limit. */
  function Walk(tables: nat -> Table, limits: nat -> int, n: nat): seq<Page> {
    if n == 0 then []
    else
      var ps := Walk(tables, limits, n - 1);
      if Ended(ps) then ps else ps + [PageOf(tables(|ps|), CursorAfter(ps), limits(|ps|))]
  }

  function Seen(ps: seq<Page>): seq<Row> {
    if ps == [] then [] else Seen(ps[..|ps| - 1]) + ps[|ps| - 1].items
  }

  /** A page hands out 1 to 100 rows while it names a cursor, never more than 100, and page and rest
      make up what was left. */
  lemma PageSplits(t: Table, cursor: Option<Id>, limit: int)
    requires UniqueIds(t)
    ensures var p := PageOf(t, cursor, limit);
      && |p.items| <= 100
      && (p.next.Some? ==> p.items != [] && p.items + After(t, p.next) == After(t, cursor) && After(t, p.next) != [])
      && (p.next.None? ==> p.items == After(t, cursor))
  {
    var k, m := PageCut(t, cursor, limit);
    assert t[k..m] + t[m..] == t[k..];
  }

  /** The page is a slice that starts right after the cursor; the next cursor starts where it ends. */
  lemma PageCut(t: Table, cursor: Option<Id>, limit: int) returns (k: nat, m: nat)
    requires UniqueIds(t)
    ensures k <= m <= |t| && m <= k + 100 && After(t, cursor) == t[k..]
    ensures var p := PageOf(t, cursor, limit);
      && p.items == t[k..m]
      && (if p.next.Some? then k < m < |t| && After(t, p.next) == t[m..] else m == |t|)
  {
    k := CutAt(t, cursor);
    var rest, take := After(t, cursor), Clamp(limit);
    if |rest| > take {
      m := k + take;
      assert rest[take - 1] == t[m - 1];
      AfterIdAt(t, m - 1);
    } else {
      m := |t|;
    }
  }

  /** A page holds the smaller of the limit, held between 1 and 100, and the rows after its cursor, in
      order, and names a next cursor exactly when rows are left. */
  lemma PageSize(t: Table, cursor: Option<Id>, limit: int)
    ensures var p, rest := PageOf(t, cursor, limit), After(t, cursor);
      var take := if limit < 1 then 1 else if limit > 100 then 100 else limit;
      && |p.items| == (if |rest| < take then |rest| else take)
      && p.items == rest[..|p.items|]
      && (p.next.Some? <==> |rest| > take)
      && (p.next.Some? ==> p.next.value == p.items[|p.items| - 1].id)
  {
  }

  /** The rows after a cursor are the rows behind the one it names, and all of them without a cursor. */
  lemma AfterExactly(t: Table, i: nat)
    requires UniqueIds(t) && i < |t|
    ensures After(t, Some(t[i].id)) == t[i + 1..] && After(t, None) == t
  {
    AfterIdAt(t, i);
  }

  /** Where the rows after the cursor begin. */
  lemma CutAt(t: Table, cursor: Option<Id>) returns (k: nat)
    ensures k <= |t| && After(t, cursor) == t[k..]
  {
    if cursor.None? { k := 0; } else { k := CutAtId(t, cursor.value); }
  }

  lemma {:induction false} CutAtId(t: Table, id: Id) returns (k: nat)
    ensures k <= |t| && AfterId(t, id) == t[k..]
  {
    if t == [] {
      k := 0;
    } else if t[0].id == id {
      k := 1;
    } else {
      k := CutAtId(t[1..], id);
      k := k + 1;
    }
  }

  lemma {:induction false} AfterIdAt(t: Table, i: nat)
    requires UniqueIds(t) && i < |t|
    ensures AfterId(t, t[i].id) == t[i + 1..]
  {
    if i > 0 {
      assert t[0].id != t[i].id;
      AfterIdAt(t[1..], i - 1);
      assert t[1..][i - 1] == t[i];
    }
  }

  // ---------------------------------------------------------------- a table at rest

  function Still(t: Table): nat -> Table { (_: nat) => t }

  /** What has been seen and what is left make up the table, and every page before the last was
      non-empty. */
  ghost predicate Splits(t: Table, ps: seq<Page>) {
    && Seen(ps) + (if Ended(ps) then [] else After(t, CursorAfter(ps))) == t
    && (!Ended(ps) ==> |Seen(ps)| >= |ps| && (ps != [] ==> After(t, CursorAfter(ps)) != []))
  }

  lemma PageKeepsSplit(t: Table, ps: seq<Page>, limit: int)
    requires UniqueIds(t) && Splits(t, ps) && !Ended(ps)
    ensures Splits(t, ps + [PageOf(t, CursorAfter(ps), limit)])
  {
    var p := PageOf(t, CursorAfter(ps), limit);
    PageSplits(t, CursorAfter(ps), limit);
    SeenGrows(ps, p);
    var left := if p.next.None? then [] else After(t, p.next);
    Associates(Seen(ps), p.items, left);
  }

  lemma SeenGrows(ps: seq<Page>, p: Page)
    ensures Seen(ps + [p]) == Seen(ps) + p.items
  {
    assert (ps + [p])[..|ps|] == ps;
  }

  lemma Associates(a: seq<Row>, b: seq<Row>, c: seq<Row>)
    ensures (a + b) + c == a + (b + c)
  {
  }

  lemma NothingSeenYet(t: Table)
    ensures Splits(t, [])
  {
  }

  lemma {:induction false} WalkSplits(t: Table, limits: nat -> int, n: nat)
    requires UniqueIds(t)
    ensures Splits(t, Walk(Still(t), limits, n))
    ensures !Ended(Walk(Still(t), limits, n)) ==> |Walk(Still(t), limits, n)| == n
  {
    if n == 0 {
      NothingSeenYet(t);
    } else {
      WalkSplits(t, limits, n - 1);
      var before := Walk(Still(t), limits, n - 1);
      if !Ended(before) {
        PageKeepsSplit(t, before, limits(|before|));
        assert Walk(Still(t), limits, n) == before + [PageOf(t, CursorAfter(before), limits(|before|))];
      } else {
        assert Walk(Still(t), limits, n) == before;
      }
    }
  }

  /** Following the cursor ends after at most one page a row, whatever the limits, and yields every
      row exactly once in order. */
  lemma WalkYieldsTable(t: Table, limits: nat -> int, n: nat)
    requires UniqueIds(t) && n >= |t| && n > 0
    ensures Ended(Walk(Still(t), limits, n)) && Seen(Walk(Still(t), limits, n)) == t
  {
    WalkSplits(t, limits, n);
  }

  /** Chat pages come oldest first; joined in reverse fetch order they are the whole history in
      chronological order. */
  function JoinedBackwards(ps: seq<Page>): seq<Row> {
    if ps == [] then [] else Reversed(ps[|ps| - 1].items) + JoinedBackwards(ps[..|ps| - 1])
  }

  lemma {:induction false} ReversedJoins(a: seq<Row>, b: seq<Row>)
    ensures Reversed(a + b) == Reversed(b) + Reversed(a)
  {
    if a == [] {
      assert a + b == b;
    } else {
      assert (a + b)[1..] == a[1..] + b;
      ReversedJoins(a[1..], b);
    }
  }

  lemma {:induction false} JoinedBackwardsReverses(ps: seq<Page>)
    ensures JoinedBackwards(ps) == Reversed(Seen(ps))
  {
    if ps != [] {
      JoinedBackwardsReverses(ps[..|ps| - 1]);
      ReversedJoins(Seen(ps[..|ps| - 1]), ps[|ps| - 1].items);
    }
  }

  lemma {:induction false} ReversedIsBackwards(s: seq<Row>, i: nat)
    requires i < |s|
    ensures |Reversed(s)| == |s| && Reversed(s)[i] == s[|s| - 1 - i]
  {
    if |s| > 1 { ReversedIsBackwards(s[1..], if i < |s| - 1 then i else 0); }
  }

  // ---------------------------------------------------------------- a table that changes

  /** The rows come in a strict order. */
  ghost predicate Orders(before: (Row, Row) -> bool) {
    && (forall r :: !before(r, r))
    && (forall a, b, c :: before(a, b) && before(b, c) ==> before(a, c))
  }

  ghost predicate Sorted(before: (Row, Row) -> bool, t: Table) {
    forall i, j :: 0 <= i < j < |t| ==> before(t[i], t[j])
  }

  ghost predicate Grows(tables: nat -> Table) {
    forall m: nat, n: nat, r :: m <= n && r in tables(m) ==> r in tables(n)
  }

  /** Every table of the walk is ordered and has unique ids; rows may be inserted anywhere, but none
      is removed. */
  ghost predicate Insertions(before: (Row, Row) -> bool, tables: nat -> Table) {
    && Orders(before) && Grows(tables)
    && forall n: nat :: Sorted(before, tables(n)) && UniqueIds(tables(n))
  }

  /** What the pages so far cover: up to and including the row the cursor names, or everything. */
  ghost predicate Covers(before: (Row, Row) -> bool, ps: seq<Page>, r: Row) {
    || Ended(ps)
    || (ps != [] && Seen(ps) != [] && (r == Seen(ps)[|Seen(ps)| - 1] || before(r, Seen(ps)[|Seen(ps)| - 1])))
  }

  /** The rows seen are in order, hence without repetition; they include every covered row of the
      first table; and the cursor names the last of them, a row of the table. */
  ghost predicate GoodWalk(before: (Row, Row) -> bool, tables: nat -> Table, ps: seq<Page>) {
    && Sorted(before, Seen(ps))
    && (forall r :: r in tables(0) && Covers(before, ps, r) ==> r in Seen(ps))
    && (ps != [] && !Ended(ps) ==>
          && Seen(ps) != [] && CursorAfter(ps) == Some(Seen(ps)[|Seen(ps)| - 1].id)
          && Seen(ps)[|Seen(ps)| - 1] in tables(|ps| - 1))
  }

  lemma {:induction false} WalkIsGood(before: (Row, Row) -> bool, tables: nat -> Table, limits: nat -> int, n: nat)
    requires Insertions(before, tables)
    ensures GoodWalk(before, tables, Walk(tables, limits, n))
  {
    if n > 0 {
      var ps := Walk(tables, limits, n - 1);
      WalkIsGood(before, tables, limits, n - 1);
      if !Ended(ps) {
        PageIsGood(before, tables, ps, limits(|ps|));
      }
    }
  }

  ghost predicate UpTo(before: (Row, Row) -> bool, r: Row, last: Row) { r == last || before(r, last) }

  /** The rest of the table begins right after the last row seen. */
  lemma RestBegins(before: (Row, Row) -> bool, t: Table, last: Row) returns (k: nat)
    requires Orders(before) && Sorted(before, t) && UniqueIds(t) && last in t
    ensures k <= |t| && AfterId(t, last.id) == t[k..]
    ensures forall i :: 0 <= i < k ==> UpTo(before, t[i], last)
    ensures forall i :: k <= i < |t| ==> before(last, t[i])
  {
    var i :| 0 <= i < |t| && t[i] == last;
    AfterIdAt(t, i);
    k := i + 1;
  }

  lemma SortedJoins(before: (Row, Row) -> bool, a: Table, b: Table)
    requires Orders(before) && Sorted(before, a) && Sorted(before, b)
    requires a != [] ==> forall i :: 0 <= i < |b| ==> before(a[|a| - 1], b[i])
    ensures Sorted(before, a + b)
  {
    forall i, j | 0 <= i < |a| && 0 <= j < |b| ensures before(a[i], b[j]) {
      assert UpTo(before, a[i], a[|a| - 1]);
    }
  }

  /** After the rows seen, and not after the page. */
  ghost predicate InReach(before: (Row, Row) -> bool, r: Row, seen: Table, p: Page) {
    && (seen != [] ==> !UpTo(before, r, seen[|seen| - 1]))
    && (p.next.Some? && p.items != [] ==> UpTo(before, r, p.items[|p.items| - 1]))
  }

  /** One more page from the table `t`: its rows continue the ones seen, without a gap. */
  lemma PageContinues(before: (Row, Row) -> bool, t: Table, seen: Table, cursor: Option<Id>, limit: int)
    requires Orders(before) && Sorted(before, t) && UniqueIds(t) && Sorted(before, seen)
    requires cursor.None? ==> seen == []
    requires cursor.Some? ==> seen != [] && seen[|seen| - 1] in t && cursor == Some(seen[|seen| - 1].id)
    ensures var p := PageOf(t, cursor, limit);
      && Sorted(before, seen + p.items)
      && (p.next.Some? ==> p.items != [] && p.next == Some(p.items[|p.items| - 1].id) && p.items[|p.items| - 1] in t)
      && (forall r :: r in t && InReach(before, r, seen, p) ==> r in p.items)
  {
    var p := PageOf(t, cursor, limit);
    var k := 0;
    if cursor.Some? { k := RestBegins(before, t, seen[|seen| - 1]); }
    assert After(t, cursor) == t[k..];
    var m := k + |p.items|;
    assert p.items == t[k..m];
    SortedJoins(before, seen, t[k..m]);
    forall r | r in t && InReach(before, r, seen, p) ensures r in p.items {
      ReachedIsOnPage(before, t, k, m, r);
    }
  }

  lemma ReachedIsOnPage(before: (Row, Row) -> bool, t: Table, k: nat, m: nat, r: Row)
    requires Orders(before) && Sorted(before, t) && k <= m <= |t| && r in t
    requires forall i :: 0 <= i < k ==> t[i] != r
    requires k < m < |t| ==> UpTo(before, r, t[m - 1])
    requires m < |t| ==> k < m
    ensures r in t[k..m]
  {
    var i :| 0 <= i < |t| && t[i] == r;
    assert t[k..m][i - k] == r;
  }

  lemma PageIsGood(before: (Row, Row) -> bool, tables: nat -> Table, ps: seq<Page>, limit: int)
    requires Insertions(before, tables) && GoodWalk(before, tables, ps) && !Ended(ps)
    ensures GoodWalk(before, tables, ps + [PageOf(tables(|ps|), CursorAfter(ps), limit)])
  {
    var t := tables(|ps|);
    if ps != [] { assert Seen(ps)[|Seen(ps)| - 1] in t; }
    PageIsGoodOn(before, tables, ps, t, limit);
  }

  lemma PageIsGoodOn(before: (Row, Row) -> bool, tables: nat -> Table, ps: seq<Page>, t: Table, limit: int)
    requires Orders(before) && Sorted(before, t) && UniqueIds(t) && tables(|ps|) == t && GoodWalk(before, tables, ps)
        && !Ended(ps)
    requires forall r :: r in tables(0) ==> r in t
    requires ps != [] ==> Seen(ps)[|Seen(ps)| - 1] in t
    ensures GoodWalk(before, tables, ps + [PageOf(t, CursorAfter(ps), limit)])
  {
    var p := PageOf(t, CursorAfter(ps), limit);
    SeenGrows(ps, p);
    PageContinues(before, t, Seen(ps), CursorAfter(ps), limit);
    forall r | r in tables(0) && Covers(before, ps + [p], r) ensures r in Seen(ps + [p]) {
      CoveredIsSeen(before, t, ps, p, r);
    }
  }

  lemma CoveredIsSeen(before: (Row, Row) -> bool, t: Table, ps: seq<Page>, p: Page, r: Row)
    requires !Ended(ps) && (ps == [] <==> Seen(ps) == []) && (p.next.Some? ==> p.items != [])
    requires r in t && (InReach(before, r, Seen(ps), p) ==> r in p.items)
    requires Covers(before, ps, r) ==> r in Seen(ps)
    requires Covers(before, ps + [p], r)
    ensures r in Seen(ps + [p])
  {
    assert (ps + [p])[..|ps|] == ps;
    if r !in p.items && p.next.Some? {
      assert Seen(ps + [p])[|Seen(ps + [p])| - 1] == p.items[|p.items| - 1];
    }
  }

  /** Insertions between pages: every row there at the start is seen exactly once when the walk ends,
      and no row is ever seen twice. */
  lemma EveryStartingRowIsSeenOnce(before: (Row, Row) -> bool, tables: nat -> Table, limits: nat -> int, n: nat)
    requires Insertions(before, tables)
    ensures var seen := Seen(Walk(tables, limits, n));
      && (forall i, j :: 0 <= i < j < |seen| ==> seen[i] != seen[j])
      && (Ended(Walk(tables, limits, n)) ==> forall r :: r in tables(0) ==> r in seen)
  {
    WalkIsGood(before, tables, limits, n);
  }

  // ---------------------------------------------------------------- newer rows first

  /** New rows sort before all old ones, as new chat messages do. */
  ghost predicate PrependsTo(tables: nat -> Table, t: Table) {
    tables(0) == t && forall n: nat :: UniqueIds(tables(n)) && exists newer: Table :: tables(n) == newer + t
  }

  lemma {:induction false} AfterSkipsNewer(newer: Table, t: Table, id: Id)
    requires UniqueIds(newer + t) && exists i :: 0 <= i < |t| && t[i].id == id
    ensures AfterId(newer + t, id) == AfterId(t, id)
  {
    if newer == [] {
      assert newer + t == t;
    } else {
      var i :| 0 <= i < |t| && t[i].id == id;
      assert (newer + t)[|newer| + i] == t[i];
      assert (newer + t)[1..] == newer[1..] + t;
      AfterSkipsNewer(newer[1..], t, id);
    }
  }

  lemma NewerChangesNothing(tables: nat -> Table, t: Table, n: nat, cursor: Option<Id>, limit: int)
    requires PrependsTo(tables, t) && cursor.Some? && exists i :: 0 <= i < |t| && t[i].id == cursor.value
    ensures PageOf(tables(n), cursor, limit) == PageOf(t, cursor, limit)
  {
    assert UniqueIds(tables(n));
    var newer :| tables(n) == newer + t;
    AfterSkipsNewer(newer, t, cursor.value);
  }

  /** The walk is then the walk over the table as it was at the start. */
  lemma WalkIgnoresNewer(tables: nat -> Table, t: Table, limits: nat -> int, n: nat)
    requires PrependsTo(tables, t)
    ensures UniqueIds(t) && Walk(tables, limits, n) == Walk(Still(t), limits, n)
  {
    StartIsUnique(tables, t);
    WalkStaysOnStart(tables, t, limits, n);
  }

  lemma {:induction false} WalkStaysOnStart(tables: nat -> Table, t: Table, limits: nat -> int, n: nat)
    requires PrependsTo(tables, t) && UniqueIds(t)
    ensures Walk(tables, limits, n) == Walk(Still(t), limits, n)
  {
    if n > 0 {
      WalkStaysOnStart(tables, t, limits, n - 1);
      CursorIsThere(t, limits, n - 1);
      NextPageIgnoresNewer(tables, t, limits, n);
    }
  }

  lemma NextPageIgnoresNewer(tables: nat -> Table, t: Table, limits: nat -> int, n: nat)
    requires PrependsTo(tables, t) && n > 0 && Walk(tables, limits, n - 1) == Walk(Still(t), limits, n - 1)
    requires var ps := Walk(Still(t), limits, n - 1);
      ps != [] && !Ended(ps) ==> exists i :: 0 <= i < |t| && t[i].id == CursorAfter(ps).value
    ensures Walk(tables, limits, n) == Walk(Still(t), limits, n)
  {
    var ps := Walk(tables, limits, n - 1);
    if !Ended(ps) { SamePage(tables, t, ps, limits(|ps|)); }
  }

  lemma StartIsUnique(tables: nat -> Table, t: Table)
    requires PrependsTo(tables, t)
    ensures UniqueIds(t)
  {
    assert UniqueIds(tables(0));
  }

  lemma SamePage(tables: nat -> Table, t: Table, ps: seq<Page>, limit: int)
    requires PrependsTo(tables, t) && !Ended(ps)
    requires ps != [] ==> exists i :: 0 <= i < |t| && t[i].id == CursorAfter(ps).value
    ensures PageOf(tables(|ps|), CursorAfter(ps), limit) == PageOf(t, CursorAfter(ps), limit)
  {
    if ps != [] { NewerChangesNothing(tables, t, |ps|, CursorAfter(ps), limit); }
  }

  lemma {:induction false} CursorIsThere(t: Table, limits: nat -> int, n: nat)
    requires UniqueIds(t)
    ensures var ps := Walk(Still(t), limits, n);
      ps != [] && !Ended(ps) ==> exists i :: 0 <= i < |t| && t[i].id == CursorAfter(ps).value
  {
    if n > 0 {
      CursorIsThere(t, limits, n - 1);
      var ps := Walk(Still(t), limits, n - 1);
      if !Ended(ps) {
        var k := CutAt(t, CursorAfter(ps));
        var take := Clamp(limits(|ps|));
        assert After(t, CursorAfter(ps)) == t[k..];
        if |t[k..]| > take { assert t[k + take - 1].id == t[k..][take - 1].id; }
      }
    }
  }

  /** While messages keep arriving, reading history to its end and joining the pages backwards gives
      exactly the messages of the start, oldest first. */
  lemma HistoryIsChronological(tables: nat -> Table, newestFirst: Table, limits: nat -> int, n: nat)
    requires PrependsTo(tables, newestFirst) && n >= |newestFirst| && n > 0
    ensures Ended(Walk(tables, limits, n)) && JoinedBackwards(Walk(tables, limits, n)) == Reversed(newestFirst)
  {
    WalkIgnoresNewer(tables, newestFirst, limits, n);
    WalkYieldsTable(newestFirst, limits, n);
    JoinedBackwardsReverses(Walk(tables, limits, n));
  }
}
