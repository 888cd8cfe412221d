/** The keyset-paged thread list, and marking a thread read. */
module Threads {
  import opened Prelude
  import opened Text
  import opened Schema
  import Mutations

  /** One result row: a thread with the latest message it was joined to. */
  datatype Row = Row(thread: Key, data: Thread, latest: Option<Key>)

  datatype ThreadCursor = ThreadCursor(date: int, id: string)

  // ---- The query ----

  /** Optional INNER JOIN on the label. */
  predicate Listed(db: Db, k: Key, account: string, labelId: Option<string>) {
    k in db.threads && k.account == account && (labelId.Some? ==> ThreadLabel(k, labelId.value) in db.threadLabels)
  }

  /** LEFT JOIN messages ON ... AND date = (SELECT MAX(date) ...). */
  predicate IsLatest(db: Db, k: Key, m: Key) {
    && m in db.messages && m.account == k.account && db.messages[m].threadId == k.id
    && forall j :: j in db.messages && j.account == k.account && db.messages[j].threadId == k.id ==>
         db.messages[j].envelope.date <= db.messages[m].envelope.date
  }

  function JoinRows(db: Db, account: string, labelId: Option<string>): set<Row> {
    (set k, m | k in db.threads && m in db.messages && Listed(db, k, account, labelId) && IsLatest(db, k, m)
       :: Row(k, db.threads[k], Some(m)))
    + (set k | k in db.threads && Listed(db, k, account, labelId)
         && (forall m :: m in db.messages ==> !(m.account == k.account && db.messages[m].threadId == k.id))
       :: Row(k, db.threads[k], None))
  }

  function CursorOf(r: Row): ThreadCursor {
    ThreadCursor(r.data.lastMessageAt, r.thread.id)
  }

  /** The cursor predicate of the WHERE clause. */
  predicate Below(r: Row, c: ThreadCursor) {
    r.data.lastMessageAt < c.date || (r.data.lastMessageAt == c.date && Less(r.thread.id, c.id))
  }

  /** ORDER BY last_message_at DESC, id DESC: `a` comes before `b`. */
  predicate Above(a: Row, b: Row) {
    Below(b, CursorOf(a))
  }

  function Remaining(rows: set<Row>, cursor: Option<ThreadCursor>): set<Row> {
    set r | r in rows && (cursor.Some? ==> Below(r, cursor.value))
  }

  /** What ORDER BY and LIMIT promise of a page; a negative limit is none. */
  ghost predicate IsPage(rows: set<Row>, cursor: Option<ThreadCursor>, limit: int, page: seq<Row>) {
    var rest := Remaining(rows, cursor);
    && (forall r :: r in page ==> r in rest)
    && |page| == (if 0 <= limit < |rest| then limit else |rest|)
    && (forall i, j :: 0 <= i < j < |page| ==> page[i] != page[j] && !Above(page[j], page[i]))
    && (forall r, x :: r in page && x in rest && x !in page ==> !Above(x, r))
  }

  function NextCursor(page: seq<Row>, limit: int): Option<ThreadCursor> {
    if |page| == limit && page != [] then Some(CursorOf(page[|page| - 1])) else None
  }

  lemma AboveTransitive(a: Row, b: Row, c: Row)
    requires Above(a, b) && Above(b, c)
    ensures Above(a, c)
  {
    if c.data.lastMessageAt == a.data.lastMessageAt {
      LessTransitive(c.thread.id, b.thread.id, a.thread.id);
    }
  }

  lemma AboveIrreflexive(r: Row)
    ensures !Above(r, r)
  {
    LessIrreflexive(r.thread.id);
  }

  lemma {:induction false} TopExists(rows: set<Row>)
    requires rows != {}
    ensures exists top :: top in rows && forall r :: r in rows ==> !Above(r, top)
    decreases |rows|
  {
    hide Above;
    var r :| r in rows;
    AboveIrreflexive(r);
    if rows == {r} {
      assert forall x :: x in rows ==> !Above(x, r);
    } else {
      var others := rows - {r};
      TopExists(others);
      var top :| top in others && forall x :: x in others ==> !Above(x, top);
      if Above(r, top) {
        forall x | x in rows ensures !Above(x, r) {
          if Above(x, r) && x != r { AboveTransitive(x, r, top); }
        }
      } else {
        assert forall x :: x in rows ==> !Above(x, top);
      }
    }
  }

  method PickPage(rest: set<Row>, limit: int) returns (page: seq<Row>)
    ensures forall r :: r in page ==> r in rest
    ensures |page| == (if 0 <= limit < |rest| then limit else |rest|)
    ensures forall i, j :: 0 <= i < j < |page| ==> page[i] != page[j] && !Above(page[j], page[i])
    ensures forall r, x :: r in page && x in rest && x !in page ==> !Above(x, r)
  {
    hide Above;
    page := [];
    var todo := rest;
    while todo != {} && (limit < 0 || |page| < limit)
      invariant todo <= rest
      invariant forall r :: r in rest <==> r in todo || r in page
      invariant forall r :: r in page ==> r !in todo
      invariant |page| + |todo| == |rest| && (limit < 0 || |page| <= limit)
      invariant forall i, j :: 0 <= i < j < |page| ==> page[i] != page[j] && !Above(page[j], page[i])
      invariant forall r, x :: r in page && x in todo ==> !Above(x, r)
      decreases |todo|
    {
      TopExists(todo);
      var top :| top in todo && forall r :: r in todo ==> !Above(r, top);
      assert forall i :: 0 <= i < |page| ==> page[i] in page;
      page := page + [top];
      todo := todo - {top};
    }
  }

  /** One page of the list: picks the topmost remaining row until the page is full. */
  method GetThreads(
      store: Store, account: string, labelId: Option<string>, cursor: Option<ThreadCursor>, limit: int := 50)
    returns (page: seq<Row>, next: Option<ThreadCursor>)
    ensures IsPage(JoinRows(store.Snapshot(), account, labelId), cursor, limit, page)
    ensures forall r :: r in page ==>
              && r.thread in store.threads && r.thread.account == account && r.data == store.threads[r.thread]
              && (labelId.Some? ==> ThreadLabel(r.thread, labelId.value) in store.threadLabels)
              && (cursor.Some? ==> r.data.lastMessageAt <= cursor.value.date)
    ensures next == NextCursor(page, limit)
  {
    var db := Db(store.messages, store.threads, store.threadLabels, store.bodies, store.pending, store.labels,
                 store.syncState);
    page := PickPage(Remaining(JoinRows(db, account, labelId), cursor), limit);
    next := if |page| == limit && page != [] then Some(CursorOf(page[|page| - 1])) else None;
  }

  // ---- Paging refines sorting ----

  /** Distinct rows have distinct places in the order. */
  ghost predicate Strict(rows: set<Row>) {
    forall a, b :: a in rows && b in rows && a != b ==> Above(a, b) || Above(b, a)
  }

  /** `s` is the set in descending order, each row once. */
  ghost predicate Lists(rows: set<Row>, s: seq<Row>) {
    && (forall r :: r in s <==> r in rows)
    && (forall i, j :: 0 <= i < j < |s| ==> Above(s[i], s[j]))
  }

  lemma HeadIsTop(rows: set<Row>, s: seq<Row>)
    requires Lists(rows, s)
    ensures s == [] <==> rows == {}
    ensures s != [] ==> s[0] in rows && forall r :: r in rows ==> r == s[0] || Above(s[0], r)
  {
    if s != [] {
      assert s[0] in s;
      forall r | r in rows ensures r == s[0] || Above(s[0], r) {
        var i :| 0 <= i < |s| && s[i] == r;
      }
    }
  }

  lemma Tail(rows: set<Row>, s: seq<Row>)
    requires Lists(rows, s) && s != []
    ensures Lists(rows - {s[0]}, s[1..])
  {
    LessIrreflexive(s[0].thread.id);
    assert s == [s[0]] + s[1..];
    forall r | r in s[1..] ensures r != s[0] {
      var i :| 0 <= i < |s[1..]| && s[1..][i] == r;
      assert Above(s[0], s[i + 1]);
    }
  }

  /** There is only one such sequence. */
  lemma {:induction false} ListsUnique(rows: set<Row>, s: seq<Row>, t: seq<Row>)
    requires Lists(rows, s) && Lists(rows, t)
    ensures s == t
    decreases |s|
  {
    HeadIsTop(rows, s);
    HeadIsTop(rows, t);
    if s != [] {
      if s[0] != t[0] {
        AboveTransitive(s[0], t[0], s[0]);
        LessIrreflexive(s[0].thread.id);
      }
      Tail(rows, s);
      Tail(rows, t);
      ListsUnique(rows - {s[0]}, s[1..], t[1..]);
    }
  }

  /** Below the cursor nothing changed between two reads. */
  ghost predicate SameBelow(a: set<Row>, b: set<Row>, c: ThreadCursor) {
    forall r :: Below(r, c) ==> (r in a <==> r in b)
  }

  /** A client following `next_cursor` to its end; the rows it reads from may grow
      above the cursor between two pages. */
  ghost predicate IsScan(views: seq<set<Row>>, pages: seq<seq<Row>>, cursor: Option<ThreadCursor>, limit: int)
    decreases |pages|
  {
    && |views| == |pages| && pages != []
    && IsPage(views[0], cursor, limit, pages[0])
    && match NextCursor(pages[0], limit)
       case None => |pages| == 1
       case Some(c) =>
         && |pages| > 1 && SameBelow(views[0], views[1], c)
         && IsScan(views[1..], pages[1..], Some(c), limit)
  }

  function Flatten(pages: seq<seq<Row>>): seq<Row> {
    if pages == [] then [] else pages[0] + Flatten(pages[1..])
  }

  lemma {:induction false} DistinctFill(s: seq<Row>, rows: set<Row>)
    requires forall r :: r in s ==> r in rows
    requires forall i, j :: 0 <= i < j < |s| ==> s[i] != s[j]
    ensures |s| <= |rows|
    ensures |s| == |rows| ==> forall r :: r in rows ==> r in s
    decreases |s|
  {
    if s != [] {
      var init, last := s[..|s| - 1], s[|s| - 1];
      assert s == init + [last] && last in s;
      DistinctFill(init, rows - {last});
    }
  }

  /** A full page leaves exactly the rows below its cursor. */
  lemma RestBelow(rows: set<Row>, cursor: Option<ThreadCursor>, limit: int, page: seq<Row>, r: Row)
    requires IsPage(rows, cursor, limit, page) && Strict(rows) && page != []
    ensures r in rows && Below(r, CursorOf(page[|page| - 1])) <==> r in Remaining(rows, cursor) && r !in page
  {
    var last := page[|page| - 1];
    assert last in page;
    if r in page {
      var i :| 0 <= i < |page| && page[i] == r;
      LessIrreflexive(r.thread.id);
      assert !Above(last, r);
    } else if r in rows && Above(last, r) && cursor.Some? {
      if r.data.lastMessageAt == cursor.value.date {
        LessTransitive(r.thread.id, last.thread.id, cursor.value.id);
      }
    }
  }

  /** A short page is the whole rest. */
  lemma ShortPage(rows: set<Row>, cursor: Option<ThreadCursor>, limit: int, page: seq<Row>)
    requires IsPage(rows, cursor, limit, page) && Strict(rows) && limit >= 1
    requires NextCursor(page, limit).None?
    ensures Lists(Remaining(rows, cursor), page)
  {
    DistinctFill(page, Remaining(rows, cursor));
    forall i, j | 0 <= i < j < |page| ensures Above(page[i], page[j]) {
      assert page[i] in page && page[j] in page;
    }
  }

  lemma JoinPages(
      rows: set<Row>, later: set<Row>, cursor: Option<ThreadCursor>, limit: int, page: seq<Row>, more: seq<Row>)
    requires IsPage(rows, cursor, limit, page) && Strict(rows) && page != []
    requires SameBelow(rows, later, CursorOf(page[|page| - 1]))
    requires Lists(Remaining(later, Some(CursorOf(page[|page| - 1]))), more)
    ensures Lists(Remaining(rows, cursor), page + more)
  {
    hide Below;
    var all := page + more;
    forall r ensures r in more <==> r in Remaining(rows, cursor) && r !in page {
      RestBelow(rows, cursor, limit, page, r);
    }
    forall i, j | 0 <= i < j < |all| ensures Above(all[i], all[j]) {
      if i < |page| {
        assert all[i] in page;
        if j < |page| {
          assert all[j] in page;
        } else {
          assert all[j] == more[j - |page|] && all[j] in more;
        }
      } else {
        assert all[i] == more[i - |page|] && all[j] == more[j - |page|];
      }
    }
  }

  /** Following the cursors yields exactly the rows that matched at the first read,
      each once, in descending order: no page repeats or skips one. */
  lemma {:induction false} ScanLists(
      views: seq<set<Row>>, pages: seq<seq<Row>>, cursor: Option<ThreadCursor>, limit: int)
    requires IsScan(views, pages, cursor, limit) && limit >= 1
    requires forall i :: 0 <= i < |views| ==> Strict(views[i])
    ensures Lists(Remaining(views[0], cursor), Flatten(pages))
    decreases |pages|
  {
    var page, rows := pages[0], views[0];
    if NextCursor(page, limit).None? {
      ShortPage(rows, cursor, limit, page);
      assert pages[1..] == [] && Flatten(pages) == page + Flatten([]);
      assert page + [] == page;
    } else {
      var c := NextCursor(page, limit).value;
      ScanLists(views[1..], pages[1..], Some(c), limit);
      var more := Flatten(pages[1..]);
      assert Lists(Remaining(views[1], Some(c)), more);
      JoinPages(rows, views[1], cursor, limit, page, more);
    }
  }

  /** A client that has followed `next_cursor` so far and was always given another. */
  ghost predicate IsUnfinished(views: seq<set<Row>>, pages: seq<seq<Row>>, cursor: Option<ThreadCursor>, limit: int)
    decreases |pages|
  {
    && |views| == |pages|
    && (pages != [] ==>
          && IsPage(views[0], cursor, limit, pages[0])
          && NextCursor(pages[0], limit).Some?
          && (|pages| > 1 ==> SameBelow(views[0], views[1], NextCursor(pages[0], limit).value))
          && IsUnfinished(views[1..], pages[1..], NextCursor(pages[0], limit), limit))
  }

  lemma {:induction false} CountOf(s: seq<Row>, rows: set<Row>)
    requires forall r :: r in s <==> r in rows
    requires forall i, j :: 0 <= i < j < |s| ==> s[i] != s[j]
    ensures |s| == |rows|
    decreases |s|
  {
    if s != [] {
      var init, last := s[..|s| - 1], s[|s| - 1];
      assert s == init + [last] && last in s;
      CountOf(init, rows - {last});
    }
  }

  /** A full page uses up `limit` rows, whatever arrives above its cursor. */
  lemma FullPageUsesRows(rows: set<Row>, later: set<Row>, cursor: Option<ThreadCursor>, limit: int, page: seq<Row>)
    requires IsPage(rows, cursor, limit, page) && Strict(rows) && NextCursor(page, limit).Some?
    requires SameBelow(rows, later, NextCursor(page, limit).value)
    ensures |Remaining(later, NextCursor(page, limit))| + limit == |Remaining(rows, cursor)|
  {
    hide Below;
    var rest, next := Remaining(rows, cursor), Remaining(later, NextCursor(page, limit));
    var shown := set r | r in page;
    CountOf(page, shown);
    forall r ensures r in next <==> r in rest - shown {
      RestBelow(rows, cursor, limit, page, r);
    }
    assert next == rest - shown && shown <= rest;
  }

  /** Every scan ends: one that was always given another cursor has seen no more pages
      than the rows it started from can fill. */
  lemma {:induction false} ScanEnds(
      views: seq<set<Row>>, pages: seq<seq<Row>>, cursor: Option<ThreadCursor>, limit: int)
    requires IsUnfinished(views, pages, cursor, limit) && pages != []
    requires forall i :: 0 <= i < |views| ==> Strict(views[i])
    ensures |pages| * limit <= |Remaining(views[0], cursor)|
    decreases |pages|
  {
    var next := NextCursor(pages[0], limit);
    if |pages| > 1 {
      FullPageUsesRows(views[0], views[1], cursor, limit, pages[0]);
      ScanEnds(views[1..], pages[1..], next, limit);
      assert |pages| * limit == |pages[1..]| * limit + limit;
    } else {
      assert |pages| * limit == limit;
    }
  }

  /** A finished scan took as many pages as the rows fill, and a last one short of a
      full page, which may be empty. */
  lemma {:induction false} ScanLength(
      views: seq<set<Row>>, pages: seq<seq<Row>>, cursor: Option<ThreadCursor>, limit: int)
    requires IsScan(views, pages, cursor, limit) && limit >= 1
    requires forall i :: 0 <= i < |views| ==> Strict(views[i])
    ensures (|pages| - 1) * limit <= |Remaining(views[0], cursor)| < |pages| * limit
    decreases |pages|
  {
    if NextCursor(pages[0], limit).Some? {
      FullPageUsesRows(views[0], views[1], cursor, limit, pages[0]);
      ScanLength(views[1..], pages[1..], NextCursor(pages[0], limit), limit);
      assert (|pages| - 1) * limit == (|pages[1..]| - 1) * limit + limit;
      assert |pages| * limit == |pages[1..]| * limit + limit;
    } else {
      assert |pages| * limit == limit && |pages[0]| < limit;
    }
  }

  // ---- On the store ----

  /** With one message per thread the join yields one row per listed thread. */
  lemma OneRowPerThread(db: Db, account: string, labelId: Option<string>, r: Row)
    requires Inv(db)
    ensures r in JoinRows(db, account, labelId)
        <==> && r.thread in db.threads && r.thread.account == account
             && (labelId.Some? ==> ThreadLabel(r.thread, labelId.value) in db.threadLabels)
             && r == Row(r.thread, db.threads[r.thread], Some(r.thread))
  {
    var k := r.thread;
    assert WellKeyedCell(k, CellAt(db, k)) && CoherentCell(CellAt(db, k));
    forall m | m in db.messages && m.account == k.account && db.messages[m].threadId == k.id ensures m == k {
      assert WellKeyedCell(m, CellAt(db, m));
    }
    if k in db.threads {
      assert k in db.messages && db.messages[k].threadId == k.id;
      assert IsLatest(db, k, k);
    }
  }

  lemma StoreRowsStrict(db: Db, account: string, labelId: Option<string>)
    requires Inv(db)
    ensures Strict(JoinRows(db, account, labelId))
  {
    var rows := JoinRows(db, account, labelId);
    forall a, b | a in rows && b in rows && a != b ensures Above(a, b) || Above(b, a) {
      OneRowPerThread(db, account, labelId, a);
      OneRowPerThread(db, account, labelId, b);
      LessTotal(a.thread.id, b.thread.id);
    }
  }

  ghost predicate Shows(all: seq<Row>, k: Key) {
    exists r :: r in all && r.thread == k
  }

  lemma ListsNewestFirst(rows: set<Row>, all: seq<Row>)
    requires Lists(rows, all)
    ensures forall i, j :: 0 <= i < j < |all| ==>
              || all[i].data.lastMessageAt > all[j].data.lastMessageAt
              || (all[i].data.lastMessageAt == all[j].data.lastMessageAt && Less(all[j].thread.id, all[i].thread.id))
  {
    forall i, j | 0 <= i < j < |all|
      ensures || all[i].data.lastMessageAt > all[j].data.lastMessageAt
              || (all[i].data.lastMessageAt == all[j].data.lastMessageAt && Less(all[j].thread.id, all[i].thread.id))
    {
      assert Above(all[i], all[j]);
    }
  }

  /** Whatever the number of messages of a thread, a row shows one that no other of them is
      newer than. */
  lemma JoinPicksNewest(db: Db, account: string, labelId: Option<string>, r: Row, j: Key)
    requires r in JoinRows(db, account, labelId)
    requires j in db.messages && j.account == account && db.messages[j].threadId == r.thread.id
    ensures r.latest.Some? && r.latest.value in db.messages
    ensures db.messages[r.latest.value].threadId == r.thread.id && r.latest.value.account == account
    ensures db.messages[j].envelope.date <= db.messages[r.latest.value].envelope.date
  {}

  lemma ListedRows(db: Db, account: string, labelId: Option<string>, all: seq<Row>, k: Key)
    requires Inv(db) && Lists(JoinRows(db, account, labelId), all)
    ensures Shows(all, k) <==> Listed(db, k, account, labelId)
  {
    hide JoinRows, Above;
    if Listed(db, k, account, labelId) {
      var r := Row(k, db.threads[k], Some(k));
      OneRowPerThread(db, account, labelId, r);
      assert r in all;
    }
    if Shows(all, k) {
      var r :| r in all && r.thread == k;
      OneRowPerThread(db, account, labelId, r);
    }
  }

  function ViewsOf(dbs: seq<Db>, account: string, labelId: Option<string>): (views: seq<set<Row>>)
    ensures |views| == |dbs| && forall i :: 0 <= i < |dbs| ==> views[i] == JoinRows(dbs[i], account, labelId)
  {
    seq(|dbs|, i requires 0 <= i < |dbs| => JoinRows(dbs[i], account, labelId))
  }

  /** Paging refines sorting: scanning an account (or one of its labels) page by page
      lists each thread that matched at the start exactly once, newest first. */
  lemma PagingRefinesSorting(dbs: seq<Db>, account: string, labelId: Option<string>, pages: seq<seq<Row>>, limit: int)
    requires limit >= 1 && forall i :: 0 <= i < |dbs| ==> Inv(dbs[i])
    requires IsScan(ViewsOf(dbs, account, labelId), pages, None, limit)
    ensures Lists(JoinRows(dbs[0], account, labelId), Flatten(pages))
    ensures forall k :: Shows(Flatten(pages), k) <==>
              k in dbs[0].threads && k.account == account &&
              (labelId.Some? ==> ThreadLabel(k, labelId.value) in dbs[0].threadLabels)
    ensures forall i, j :: 0 <= i < j < |Flatten(pages)| ==>
              var a, b := Flatten(pages)[i], Flatten(pages)[j];
              || a.data.lastMessageAt > b.data.lastMessageAt
              || (a.data.lastMessageAt == b.data.lastMessageAt && Less(b.thread.id, a.thread.id))
  {
    hide JoinRows, Inv, Lists, Flatten, Shows;
    var views := ViewsOf(dbs, account, labelId);
    var all := Flatten(pages);
    forall i | 0 <= i < |views| ensures Strict(views[i]) {
      StoreRowsStrict(dbs[i], account, labelId);
    }
    ScanLists(views, pages, None, limit);
    assert Remaining(views[0], None) == JoinRows(dbs[0], account, labelId);
    forall k ensures Shows(Flatten(pages), k) <==> Listed(dbs[0], k, account, labelId) {
      ListedRows(dbs[0], account, labelId, all, k);
    }
    ListsNewestFirst(JoinRows(dbs[0], account, labelId), all);
  }

  lemma {:induction false} SameSize(db: Db, rows: set<Row>, keys: set<Key>)
    requires keys <= db.threads.Keys
    requires forall r :: r in rows <==> r.thread in keys && r == Row(r.thread, db.threads[r.thread], Some(r.thread))
    ensures |rows| == |keys|
    decreases |keys|
  {
    if keys == {} {
      assert forall r :: r !in rows;
    } else {
      var k :| k in keys;
      SameSize(db, rows - {Row(k, db.threads[k], Some(k))}, keys - {k});
      assert Row(k, db.threads[k], Some(k)) in rows;
    }
  }

  lemma RowsAreThreads(db: Db, account: string, labelId: Option<string>)
    requires Inv(db)
    ensures |JoinRows(db, account, labelId)| == |set k | k in db.threads && Listed(db, k, account, labelId)|
  {
    var rows, keys := JoinRows(db, account, labelId), set k | k in db.threads && Listed(db, k, account, labelId);
    forall r ensures r in rows <==> r.thread in keys && r == Row(r.thread, db.threads[r.thread], Some(r.thread)) {
      OneRowPerThread(db, account, labelId, r);
    }
    SameSize(db, rows, keys);
  }

  /** Scanning an account ends after no more full pages than its matching threads fill,
      although threads may keep arriving above the cursor. */
  lemma PagingTerminates(dbs: seq<Db>, account: string, labelId: Option<string>, pages: seq<seq<Row>>, limit: int)
    requires dbs != [] && forall i :: 0 <= i < |dbs| ==> Inv(dbs[i])
    requires IsUnfinished(ViewsOf(dbs, account, labelId), pages, None, limit)
    ensures |pages| * limit <= |set k | k in dbs[0].threads && k.account == account
              && (labelId.Some? ==> ThreadLabel(k, labelId.value) in dbs[0].threadLabels)|
  {
    hide JoinRows, Inv;
    var views := ViewsOf(dbs, account, labelId);
    forall i | 0 <= i < |views| ensures Strict(views[i]) {
      StoreRowsStrict(dbs[i], account, labelId);
    }
    ScanEnds(views, pages, None, limit);
    assert Remaining(views[0], None) == JoinRows(dbs[0], account, labelId);
    RowsAreThreads(dbs[0], account, labelId);
    assert (set k | k in dbs[0].threads && k.account == account
              && (labelId.Some? ==> ThreadLabel(k, labelId.value) in dbs[0].threadLabels))
        == set k | k in dbs[0].threads && Listed(dbs[0], k, account, labelId);
  }

  // ---- Scans while anything changes ----

  /** A client following `next_cursor` to its end, whatever happens between two pages. */
  ghost predicate IsLooseScan(views: seq<set<Row>>, pages: seq<seq<Row>>, cursor: Option<ThreadCursor>, limit: int)
    decreases |pages|
  {
    && |views| == |pages| && pages != []
    && IsPage(views[0], cursor, limit, pages[0])
    && (NextCursor(pages[0], limit).None? ==> |pages| == 1)
    && (NextCursor(pages[0], limit).Some? ==>
          |pages| > 1 && IsLooseScan(views[1..], pages[1..], NextCursor(pages[0], limit), limit))
  }

  /** How often a thread is shown. */
  function Times(s: seq<Row>, k: Key): nat {
    if s == [] then 0 else Times(s[..|s| - 1], k) + if s[|s| - 1].thread == k then 1 else 0
  }

  lemma {:induction false} TimesAppend(s: seq<Row>, t: seq<Row>, k: Key)
    ensures Times(s + t, k) == Times(s, k) + Times(t, k)
  {
    if t == [] {
      assert s + t == s;
    } else {
      assert (s + t)[..|s + t| - 1] == s + t[..|t| - 1];
      TimesAppend(s, t[..|t| - 1], k);
    }
  }

  /** Each thread has one row. */
  ghost predicate OneRowEach(rows: set<Row>) {
    forall a, b :: a in rows && b in rows && a.thread == b.thread ==> a == b
  }

  lemma LastIsNew(page: seq<Row>)
    requires page != [] && forall i, j :: 0 <= i < j < |page| ==> page[i] != page[j]
    ensures page[|page| - 1] !in page[..|page| - 1]
  {}

  lemma {:induction false} TimesOnPage(page: seq<Row>, r: Row)
    requires forall i :: 0 <= i < |page| && page[i].thread == r.thread ==> page[i] == r
    requires forall i, j :: 0 <= i < j < |page| ==> page[i] != page[j]
    ensures Times(page, r.thread) == if r in page then 1 else 0
  {
    if page != [] {
      var init, last := page[..|page| - 1], page[|page| - 1];
      TimesOnPage(init, r);
      LastIsNew(page);
      assert r in page <==> r in init || r == last by { assert page == init + [last]; }
    }
  }

  lemma OneRowIs(rows: set<Row>, a: Row, b: Row)
    requires OneRowEach(rows) && a in rows && b in rows && a.thread == b.thread
    ensures a == b
  {}

  /** The thread is listed at this date. */
  ghost predicate Stays(rows: set<Row>, k: Key, date: int) {
    exists r :: r in rows && r.thread == k && r.data.lastMessageAt == date
  }

  predicate PlaceBelow(k: Key, date: int, cursor: Option<ThreadCursor>) {
    cursor.Some? ==> date < cursor.value.date || (date == cursor.value.date && Less(k.id, cursor.value.id))
  }

  lemma {:induction false} LooseScanShows(
      views: seq<set<Row>>, pages: seq<seq<Row>>, cursor: Option<ThreadCursor>, limit: int, k: Key, date: int)
    requires IsLooseScan(views, pages, cursor, limit) && limit >= 1
    requires forall i :: 0 <= i < |views| ==> Strict(views[i]) && OneRowEach(views[i]) && Stays(views[i], k, date)
    ensures Times(Flatten(pages), k) == if PlaceBelow(k, date, cursor) then 1 else 0
    decreases |pages|
  {
    hide Strict, OneRowEach;
    var rows, page, rest := views[0], pages[0], Flatten(pages[1..]);
    var next := NextCursor(page, limit);
    var r :| r in rows && r.thread == k && r.data.lastMessageAt == date;
    assert r in Remaining(rows, cursor) <==> PlaceBelow(k, date, cursor);
    forall i | 0 <= i < |page| && page[i].thread == k ensures page[i] == r {
      assert page[i] in page;
      OneRowIs(rows, page[i], r);
    }
    TimesOnPage(page, r);
    TimesAppend(page, rest, k);
    if next.None? {
      ShortPage(rows, cursor, limit, page);
      assert pages[1..] == [];
    } else {
      RestBelow(rows, cursor, limit, page, r);
      LooseScanShows(views[1..], pages[1..], next, limit, k, date);
    }
  }

  lemma StoreRowsOneEach(db: Db, account: string, labelId: Option<string>, k: Key)
    requires Inv(db)
    ensures OneRowEach(JoinRows(db, account, labelId))
    ensures Listed(db, k, account, labelId) ==> Stays(JoinRows(db, account, labelId), k, db.threads[k].lastMessageAt)
  {
    hide JoinRows;
    var rows := JoinRows(db, account, labelId);
    forall a, b | a in rows && b in rows && a.thread == b.thread ensures a == b {
      OneRowPerThread(db, account, labelId, a);
      OneRowPerThread(db, account, labelId, b);
    }
    if Listed(db, k, account, labelId) {
      OneRowPerThread(db, account, labelId, Row(k, db.threads[k], Some(k)));
    }
  }

  /** A thread that stays listed at the same date is shown exactly once in a scan, whatever
      happens to other threads and to its own flags between two pages. */
  lemma StayingThreadShownOnce(
      dbs: seq<Db>, account: string, labelId: Option<string>, pages: seq<seq<Row>>, limit: int, k: Key, date: int)
    requires limit >= 1 && IsLooseScan(ViewsOf(dbs, account, labelId), pages, None, limit)
    requires forall i :: 0 <= i < |dbs| ==>
      && Inv(dbs[i]) && k in dbs[i].threads && k.account == account
      && (labelId.Some? ==> ThreadLabel(k, labelId.value) in dbs[i].threadLabels)
      && dbs[i].threads[k].lastMessageAt == date
    ensures Times(Flatten(pages), k) == 1
  {
    hide JoinRows, Inv, IsLooseScan;
    var views := ViewsOf(dbs, account, labelId);
    forall i | 0 <= i < |views| ensures Strict(views[i]) && OneRowEach(views[i]) && Stays(views[i], k, date) {
      StoreRowsStrict(dbs[i], account, labelId);
      StoreRowsOneEach(dbs[i], account, labelId, k);
    }
    LooseScanShows(views, pages, None, limit, k, date);
  }

  // ---- Marking a thread read, without a queue row ----

  method MarkThreadRead(store: Store, t: Key)
    modifies store
    ensures store.Snapshot() == Mutations.MarkReadLocally(old(store.Snapshot()), t.account, t.id, true)
  {
    if t in store.threads {
      store.threads := store.threads[t := store.threads[t].(isRead := true)];
    }
    store.messages := map k | k in store.messages ::
      if k.account == t.account && store.messages[k].threadId == t.id then store.messages[k].(isRead := true)
      else store.messages[k];
    assert Key(t.account, t.id) == t;
    store.Commit();
  }
}
