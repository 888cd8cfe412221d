/** The offline operations queue: enqueue, dequeue, compaction of toggle pairs and
    retry with exponential backoff. The table is a sequence in insertion order. */
module Queue {
  import opened Prelude
  import opened Text
  import opened Json
  import opened Schema

  /** `max_retries` as the schema defaults it. */
  const DEFAULT_MAX_RETRIES: int := 10

  // ---- Keys and order of the table ----

  /** PRIMARY KEY (id). */
  ghost predicate UniqueIds(q: seq<PendingOp>) {
    forall i, j :: 0 <= i < j < |q| ==> q[i].id != q[j].id
  }

  /** Later operations carry greater ids, as the compaction join assumes. */
  ghost predicate IdsIncrease(q: seq<PendingOp>) {
    forall i, j :: 0 <= i < j < |q| ==> Less(q[i].id, q[j].id)
  }

  /** The clock does not run backwards between two enqueues. */
  ghost predicate CreationOrdered(q: seq<PendingOp>) {
    forall i, j :: 0 <= i < j < |q| ==> q[i].createdAt <= q[j].createdAt
  }

  /** A subsequence keeps the order of its elements. */
  lemma FilterKeepsOrder(q: seq<PendingOp>, p: PendingOp -> bool)
    ensures IdsIncrease(q) ==> IdsIncrease(Filter(q, p))
    ensures UniqueIds(q) ==> UniqueIds(Filter(q, p))
    ensures CreationOrdered(q) ==> CreationOrdered(Filter(q, p))
  {
    var increasing := (a: PendingOp, b: PendingOp) => Less(a.id, b.id);
    var distinct := (a: PendingOp, b: PendingOp) => a.id != b.id;
    var ordered := (a: PendingOp, b: PendingOp) => a.createdAt <= b.createdAt;
    var r := Filter(q, p);
    if IdsIncrease(q) {
      FilterPairwise(q, p, increasing);
      assert forall i, j :: 0 <= i < j < |r| ==> increasing(r[i], r[j]);
    }
    if UniqueIds(q) {
      FilterPairwise(q, p, distinct);
      assert forall i, j :: 0 <= i < j < |r| ==> distinct(r[i], r[j]);
    }
    if CreationOrdered(q) {
      FilterPairwise(q, p, ordered);
      assert forall i, j :: 0 <= i < j < |r| ==> ordered(r[i], r[j]);
    }
  }

  // ---- Enqueue and dequeue ----

  function NewOp(id: string, account: string, opType: string, resource: string, params: Json, now: int): PendingOp {
    PendingOp(id, account, opType, resource, params, Pending, 0, DEFAULT_MAX_RETRIES, None, now, None)
  }

  /** The generated id and the clock are parameters. */
  method Enqueue(store: Store, id: string, account: string, opType: string, resource: string, params: Json, now: int)
    requires forall op :: op in store.pending ==> op.id != id
    modifies store
    ensures store.Snapshot()
        == old(store.Snapshot()).(pending := old(store.pending) + [NewOp(id, account, opType, resource, params, now)])
    ensures store.commits == old(store.commits) + [store.Snapshot()]
    ensures UniqueIds(old(store.pending)) ==> UniqueIds(store.pending)
  {
    store.pending := store.pending
        + [PendingOp(id, account, opType, resource, params, Pending, 0, DEFAULT_MAX_RETRIES, None, now, None)];
    store.Commit();
  }

  predicate Due(op: PendingOp, account: string, now: int) {
    op.account == account && op.status == Pending && (op.nextRetryAt.None? || op.nextRetryAt.value <= now)
  }

  function DueSet(q: seq<PendingOp>, account: string, now: int): set<PendingOp> {
    set op | op in q && Due(op, account, now)
  }

  /** What WHERE, ORDER BY created_at and LIMIT promise: due rows, each once, oldest
      first, up to the limit (a negative one is none), none older left behind. */
  ghost predicate IsDequeue(due: set<PendingOp>, limit: int, ops: seq<PendingOp>) {
    && (forall op :: op in ops ==> op in due)
    && |ops| == (if 0 <= limit < |due| then limit else |due|)
    && (forall i, j :: 0 <= i < j < |ops| ==> ops[i] != ops[j] && ops[i].createdAt <= ops[j].createdAt)
    && (forall op, left :: op in ops && left in due && left !in ops ==> op.createdAt <= left.createdAt)
  }

  lemma OldestExists(ops: set<PendingOp>)
    requires ops != {}
    ensures exists op :: op in ops && forall o :: o in ops ==> op.createdAt <= o.createdAt
  {
    LeastExists(ops, (op: PendingOp) => op.createdAt);
  }

  /** Takes the oldest remaining due row until the limit is reached. */
  method DequeuePendingForAccount(store: Store, account: string, limit: int, now: int) returns (ops: seq<PendingOp>)
    ensures IsDequeue(DueSet(store.pending, account, now), limit, ops)
  {
    ops := [];
    var todo := set op | op in store.pending && Due(op, account, now);
    ghost var due := DueSet(store.pending, account, now);
    while todo != {} && (limit < 0 || |ops| < limit)
      invariant todo <= due
      invariant forall op :: op in due <==> op in todo || op in ops
      invariant forall op :: op in ops ==> op !in todo
      invariant |ops| + |todo| == |due| && (limit < 0 || |ops| <= limit)
      invariant forall i, j :: 0 <= i < j < |ops| ==> ops[i] != ops[j] && ops[i].createdAt <= ops[j].createdAt
      invariant forall op, left :: op in ops && left in todo ==> op.createdAt <= left.createdAt
      decreases |todo|
    {
      OldestExists(todo);
      var oldest :| oldest in todo && forall o :: o in todo ==> oldest.createdAt <= o.createdAt;
      assert forall i :: 0 <= i < |ops| ==> ops[i] in ops;
      ops := ops + [oldest];
      todo := todo - {oldest};
    }
  }

  /** The first `limit` due rows in the order of the table. */
  function DueRows(q: seq<PendingOp>, account: string, limit: int, now: int): seq<PendingOp> {
    var due := Filter(q, (op: PendingOp) => Due(op, account, now));
    if 0 <= limit < |due| then due[..limit] else due
  }

  lemma {:induction false} CountDistinct(s: seq<PendingOp>, ops: set<PendingOp>)
    requires UniqueIds(s) && forall op :: op in s <==> op in ops
    ensures |s| == |ops|
    decreases |s|
  {
    if s != [] {
      var init, last := s[..|s| - 1], s[|s| - 1];
      assert s == init + [last];
      CountDistinct(init, ops - {last});
    }
  }

  /** The clock did not run backwards between the enqueues of two due rows. */
  ghost predicate DueInOrder(q: seq<PendingOp>, account: string, now: int) {
    forall i, j :: 0 <= i < j < |q| && Due(q[i], account, now) && Due(q[j], account, now) ==>
      q[i].createdAt <= q[j].createdAt
  }

  lemma PrefixIsDequeue(due: seq<PendingOp>, r: seq<PendingOp>, rest: seq<PendingOp>, rows: set<PendingOp>, limit: int)
    requires due == r + rest && UniqueIds(due) && CreationOrdered(due)
    requires forall op :: op in due <==> op in rows
    requires |r| == if 0 <= limit < |rows| then limit else |rows|
    ensures IsDequeue(rows, limit, r)
  {
    forall i | 0 <= i < |r| ensures due[i] == r[i] && r[i] in rows {
      assert due[i] in due;
    }
    forall op, left | op in r && left in rows && left !in r ensures op.createdAt <= left.createdAt {
      assert left in due;
      var j :| 0 <= j < |rest| && rest[j] == left;
      var i :| 0 <= i < |r| && r[i] == op;
      assert due[|r| + j] == left;
    }
  }

  /** While the clock does not run backwards, those are a correct answer. */
  lemma DueRowsOldestFirst(q: seq<PendingOp>, account: string, limit: int, now: int)
    requires UniqueIds(q) && DueInOrder(q, account, now)
    ensures IsDequeue(DueSet(q, account, now), limit, DueRows(q, account, limit, now))
  {
    hide Filter, Due;
    var p := (op: PendingOp) => Due(op, account, now);
    var ordered := (a: PendingOp, b: PendingOp) => Due(a, account, now) && Due(b, account, now) ==>
        a.createdAt <= b.createdAt;
    var due := Filter(q, p);
    FilterKeepsOrder(q, p);
    FilterPairwise(q, p, ordered);
    FilterIn(q, p);
    assert CreationOrdered(due) by {
      forall i, j | 0 <= i < j < |due| ensures due[i].createdAt <= due[j].createdAt {
        assert due[i] in due && due[j] in due && ordered(due[i], due[j]);
      }
    }
    CountDistinct(due, DueSet(q, account, now));
    var r := DueRows(q, account, limit, now);
    var rest := due[|r|..];
    assert due == r + rest;
    assert forall op :: op in due <==> op in DueSet(q, account, now);
    PrefixIsDequeue(due, r, rest, DueSet(q, account, now), limit);
  }

  lemma OldestOfRest(due: set<PendingOp>, limit: int, ops: seq<PendingOp>, i: nat)
    requires IsDequeue(due, limit, ops) && i < |ops|
    ensures ops[i] !in ops[..i]
    ensures forall o :: o in due && o !in ops[..i] ==> ops[i].createdAt <= o.createdAt
  {
    assert forall j :: 0 <= j < i ==> ops[j] in ops[..i];
    forall o | o in due && o !in ops[..i] ensures ops[i].createdAt <= o.createdAt {
      assert ops[i] in ops;
      if o in ops {
        var j :| 0 <= j < |ops| && ops[j] == o;
      }
    }
  }

  function Older(due: set<PendingOp>, x: PendingOp): set<PendingOp> {
    set op | op in due && op.createdAt < x.createdAt
  }

  /** Rows of one second come too late for the limit: enough older ones go first. */
  ghost predicate TiesAreCut(due: set<PendingOp>, limit: int) {
    forall x, y :: x in due && y in due && x != y && x.createdAt == y.createdAt ==> 0 <= limit <= |Older(due, x)|
  }

  lemma SubsetSize(a: set<PendingOp>, b: set<PendingOp>)
    requires a <= b
    ensures |a| <= |b|
  {
    assert |b| == |a| + |b - a| by { assert b == a + (b - a); }
  }

  lemma {:induction false} SetOfSize(s: seq<PendingOp>)
    ensures |set op | op in s| <= |s|
  {
    if s != [] {
      var init, last := s[..|s| - 1], s[|s| - 1];
      SetOfSize(init);
      assert s == init + [last];
      assert (set op | op in s) == (set op | op in init) + {last};
    }
  }

  /** Older rows all come first, so a row returned at `i` has at most `i` of them. */
  lemma OlderComeFirst(due: set<PendingOp>, limit: int, ops: seq<PendingOp>, i: nat)
    requires IsDequeue(due, limit, ops) && i < |ops|
    ensures |Older(due, ops[i])| <= i
  {
    OldestOfRest(due, limit, ops, i);
    var before := set op | op in ops[..i];
    assert Older(due, ops[i]) <= before;
    SubsetSize(Older(due, ops[i]), before);
    SetOfSize(ops[..i]);
  }

  /** After the same rows comes the same row. */
  lemma NextUnique(due: set<PendingOp>, limit: int, a: seq<PendingOp>, b: seq<PendingOp>, i: nat)
    requires TiesAreCut(due, limit)
    requires IsDequeue(due, limit, a) && IsDequeue(due, limit, b) && i < |a| && i < |b| && a[..i] == b[..i]
    ensures a[i] == b[i]
  {
    OldestOfRest(due, limit, a, i);
    OldestOfRest(due, limit, b, i);
    OlderComeFirst(due, limit, a, i);
    hide Older;
    assert a[i] in a && b[i] in b;
    assert a[i].createdAt == b[i].createdAt;
  }

  /** Then there is one answer only. */
  lemma {:induction false} DequeueUnique(
      due: set<PendingOp>, limit: int, a: seq<PendingOp>, b: seq<PendingOp>, n: nat)
    requires TiesAreCut(due, limit)
    requires IsDequeue(due, limit, a) && IsDequeue(due, limit, b) && n <= |a|
    ensures |a| == |b| && a[..n] == b[..n]
  {
    hide TiesAreCut;
    assert |a| == |b|;
    if n > 0 {
      DequeueUnique(due, limit, a, b, n - 1);
      NextUnique(due, limit, a, b, n - 1);
      assert a[..n] == a[..n - 1] + [a[n - 1]] && b[..n] == b[..n - 1] + [b[n - 1]];
    }
  }

  /** A listing without a limit holds every row. */
  lemma {:induction false} CountListed(due: set<PendingOp>, s: seq<PendingOp>)
    requires forall op :: op in s ==> op in due
    requires |s| == |due| && forall i, j :: 0 <= i < j < |s| ==> s[i] != s[j]
    ensures forall op :: op in due ==> op in s
    decreases |s|
  {
    if s != [] {
      var init, last := s[..|s| - 1], s[|s| - 1];
      assert s == init + [last] && last in s;
      CountListed(due - {last}, init);
    }
  }

  lemma OldestFirst(due: set<PendingOp>, op: PendingOp, s: seq<PendingOp>)
    requires op in due && forall o :: o in due ==> op.createdAt <= o.createdAt
    requires IsDequeue(due - {op}, -1, s)
    ensures IsDequeue(due, -1, [op] + s)
  {
    var t := [op] + s;
    CountListed(due - {op}, s);
    forall i, j | 0 <= i < j < |t| ensures t[i] != t[j] && t[i].createdAt <= t[j].createdAt {
      assert t[j] == s[j - 1] && s[j - 1] in s;
    }
  }

  lemma {:induction false} ListingExists(due: set<PendingOp>)
    ensures exists s :: IsDequeue(due, -1, s)
    decreases |due|
  {
    if due == {} {
      assert IsDequeue(due, -1, []);
    } else {
      OldestExists(due);
      var op :| op in due && forall o :: o in due ==> op.createdAt <= o.createdAt;
      ListingExists(due - {op});
      var s: seq<PendingOp> :| IsDequeue(due - {op}, -1, s);
      OldestFirst(due, op, s);
    }
  }

  /** `x` is returned at `i`, after every row that is not newer. */
  ghost predicate LastAt(s: seq<PendingOp>, x: PendingOp, i: nat) {
    i < |s| && s[i] == x && forall j :: i < j < |s| ==> x.createdAt < s[j].createdAt
  }

  ghost predicate ComesLast(s: seq<PendingOp>, x: PendingOp) {
    exists i :: LastAt(s, x, i)
  }

  lemma PrependLater(s: seq<PendingOp>, op: PendingOp, x: PendingOp)
    requires ComesLast(s, x)
    ensures ComesLast([op] + s, x)
  {
    var i: nat :| LastAt(s, x, i);
    assert LastAt([op] + s, x, i + 1);
  }

  lemma PrependLast(due: set<PendingOp>, x: PendingOp, s: seq<PendingOp>)
    requires IsDequeue(due, -1, s) && forall o :: o in due ==> x.createdAt < o.createdAt
    ensures ComesLast([x] + s, x)
  {
    var t := [x] + s;
    forall j | 0 < j < |t| ensures x.createdAt < t[j].createdAt {
      assert t[j] == s[j - 1] && s[j - 1] in s;
    }
    assert LastAt(t, x, 0);
  }

  /** Any row may come last among those of its second. */
  lemma {:induction false} MayComeLast(due: set<PendingOp>, x: PendingOp)
    requires x in due
    ensures exists s :: IsDequeue(due, -1, s) && ComesLast(s, x)
    decreases |due|
  {
    hide IsDequeue, ComesLast;
    var others := due - {x};
    if exists o :: o in others && o.createdAt <= x.createdAt {
      OldestExists(others);
      var op :| op in others && forall o :: o in others ==> op.createdAt <= o.createdAt;
      MayComeLast(due - {op}, x);
      var s: seq<PendingOp> :| IsDequeue(due - {op}, -1, s) && ComesLast(s, x);
      OldestFirst(due, op, s);
      PrependLater(s, op, x);
    } else {
      ListingExists(others);
      var s: seq<PendingOp> :| IsDequeue(others, -1, s);
      OldestFirst(due, x, s);
      PrependLast(others, x, s);
    }
  }

  /** `x` is returned right after the older rows. */
  ghost predicate ComesFirst(due: set<PendingOp>, s: seq<PendingOp>, x: PendingOp) {
    |Older(due, x)| < |s| && s[|Older(due, x)|] == x
  }

  lemma PrependOlder(due: set<PendingOp>, op: PendingOp, s: seq<PendingOp>, x: PendingOp)
    requires op in Older(due, x) && ComesFirst(due - {op}, s, x)
    ensures ComesFirst(due, [op] + s, x)
  {
    assert Older(due - {op}, x) == Older(due, x) - {op};
  }

  /** Any row may come first among those of its second. */
  lemma {:induction false} MayComeFirst(due: set<PendingOp>, x: PendingOp)
    requires x in due
    ensures exists s :: IsDequeue(due, -1, s) && ComesFirst(due, s, x)
    decreases |due|
  {
    hide IsDequeue;
    if o :| o in Older(due, x) {
      OldestExists(due);
      var op :| op in due && forall o :: o in due ==> op.createdAt <= o.createdAt;
      MayComeFirst(due - {op}, x);
      var s: seq<PendingOp> :| IsDequeue(due - {op}, -1, s) && ComesFirst(due - {op}, s, x);
      OldestFirst(due, op, s);
      PrependOlder(due, op, s, x);
    } else {
      forall o | o in due ensures x.createdAt <= o.createdAt {
        assert o !in Older(due, x);
      }
      ListingExists(due - {x});
      var s: seq<PendingOp> :| IsDequeue(due - {x}, -1, s);
      OldestFirst(due, x, s);
      assert Older(due, x) == {} && ComesFirst(due, [x] + s, x);
    }
  }

  /** LIMIT cuts a listing. */
  lemma ListingCut(due: set<PendingOp>, limit: int, s: seq<PendingOp>)
    requires IsDequeue(due, -1, s)
    ensures IsDequeue(due, limit, if 0 <= limit < |s| then s[..limit] else s)
  {
    CountListed(due, s);
    if 0 <= limit < |s| {
      var r := s[..limit];
      assert forall j :: 0 <= j < limit ==> s[j] in r;
      forall op, left | op in r && left in due && left !in r ensures op.createdAt <= left.createdAt {
        var i :| 0 <= i < |r| && r[i] == op;
        var j :| 0 <= j < |s| && s[j] == left;
      }
    }
  }

  ghost predicate OneAnswer(due: set<PendingOp>, limit: int) {
    forall a, b :: IsDequeue(due, limit, a) && IsDequeue(due, limit, b) ==> a == b
  }

  /** An answer that shows `x` before the other rows of its second. */
  lemma AnswerWithFirst(due: set<PendingOp>, limit: int, x: PendingOp) returns (ops: seq<PendingOp>)
    requires x in due && (limit < 0 || |Older(due, x)| < limit)
    ensures IsDequeue(due, limit, ops) && ComesFirst(due, ops, x)
  {
    MayComeFirst(due, x);
    var s: seq<PendingOp> :| IsDequeue(due, -1, s) && ComesFirst(due, s, x);
    ListingCut(due, limit, s);
    ops := if 0 <= limit < |s| then s[..limit] else s;
  }

  lemma SameOlder(due: set<PendingOp>, x: PendingOp, y: PendingOp)
    requires x.createdAt == y.createdAt
    ensures Older(due, x) == Older(due, y)
  {}

  /** The query has one answer exactly when rows of one second come too late for the limit. */
  lemma DequeueDetermined(due: set<PendingOp>, limit: int)
    ensures OneAnswer(due, limit) <==> TiesAreCut(due, limit)
  {
    hide Older, IsDequeue;
    if TiesAreCut(due, limit) {
      forall a, b | IsDequeue(due, limit, a) && IsDequeue(due, limit, b) ensures a == b {
        DequeueUnique(due, limit, a, b, |a|);
        assert a[..|a|] == a && b[..|b|] == b;
      }
    }
    if OneAnswer(due, limit) {
      forall x, y | x in due && y in due && x != y && x.createdAt == y.createdAt
        ensures 0 <= limit <= |Older(due, x)|
      {
        assert Older(due, x) == Older(due, y) by { SameOlder(due, x, y); }
        if limit < 0 || |Older(due, x)| < limit {
          var a := AnswerWithFirst(due, limit, x);
          var b := AnswerWithFirst(due, limit, y);
        }
      }
    }
  }

  /** So replay takes the due operations in the order they were queued. */
  lemma DequeueInQueueOrder(q: seq<PendingOp>, account: string, limit: int, now: int, ops: seq<PendingOp>)
    requires UniqueIds(q) && DueInOrder(q, account, now) && TiesAreCut(DueSet(q, account, now), limit)
    requires IsDequeue(DueSet(q, account, now), limit, ops)
    ensures ops == DueRows(q, account, limit, now)
  {
    hide Due, DueRows;
    var r := DueRows(q, account, limit, now);
    DueRowsOldestFirst(q, account, limit, now);
    DequeueUnique(DueSet(q, account, now), limit, ops, r, |ops|);
    assert ops[..|ops|] == ops && r[..|r|] == r;
  }

  // ---- Compaction ----

  predicate IsToggleType(opType: string) {
    opType == "markRead" || opType == "setFlag"
  }

  function ReadOf(op: PendingOp): Option<int> {
    ExtractInt(op.params, "read")
  }

  predicate InGroup(op: PendingOp, account: string, resource: string, opType: string) {
    op.account == account && op.resource == resource && op.opType == opType && op.status == Pending
  }

  /** The self-join: `a` switches on, a later `b` of the same group switches off. */
  predicate Cancels(a: PendingOp, b: PendingOp, account: string) {
    && a.account == b.account && a.resource == b.resource && a.opType == b.opType && Less(a.id, b.id)
    && a.account == account && a.status == Pending && b.status == Pending
    && IsToggleType(a.opType)
    && ReadOf(a) == Some(1) && ReadOf(b) == Some(0)
  }

  predicate Cancelled(q: seq<PendingOp>, account: string, op: PendingOp) {
    exists other :: other in q && (Cancels(op, other, account) || Cancels(other, op, account))
  }

  function Compacted(q: seq<PendingOp>, account: string): seq<PendingOp> {
    Filter(q, (op: PendingOp) => !Cancelled(q, account, op))
  }

  /** DELETE FROM pending_operations WHERE id IN (...). */
  method DeleteIds(store: Store, ids: set<string>)
    modifies store
    ensures store.Snapshot()
        == old(store.Snapshot()).(pending := Filter(old(store.pending), (op: PendingOp) => op.id !in ids))
  {
    if ids == {} {
      FilterAll(store.pending, (op: PendingOp) => op.id !in ids);
      return;
    }
    store.pending := Filter(store.pending, (op: PendingOp) => op.id !in ids);
    store.Commit();
  }

  lemma {:induction false} FilterBoth(q: seq<PendingOp>, p: PendingOp -> bool, r: PendingOp -> bool)
    ensures Filter(Filter(q, p), r) == Filter(q, (op: PendingOp) => p(op) && r(op))
  {
    if q != [] {
      FilterBoth(q[..|q| - 1], p, r);
      FilterAppend(Filter(q[..|q| - 1], p), [q[|q| - 1]], r);
      assert Filter([q[|q| - 1]], r) == if r(q[|q| - 1]) then [q[|q| - 1]] else [];
    }
  }

  lemma SameIdSameOp(q: seq<PendingOp>, a: PendingOp, b: PendingOp)
    requires UniqueIds(q) && a in q && b in q && a.id == b.id
    ensures a == b
  {
    var i :| 0 <= i < |q| && q[i] == a;
    var j :| 0 <= j < |q| && q[j] == b;
  }

  lemma DeletedArePaired(q: seq<PendingOp>, account: string, aIds: set<string>, bIds: set<string>)
    requires UniqueIds(q)
    requires forall id :: id in aIds <==> exists a, b :: a in q && b in q && Cancels(a, b, account) && a.id == id
    requires forall id :: id in bIds <==> exists a, b :: a in q && b in q && Cancels(a, b, account) && b.id == id
    ensures Filter(Filter(q, (op: PendingOp) => op.id !in aIds), (op: PendingOp) => op.id !in bIds)
        == Compacted(q, account)
  {
    var keepA, keepB := (op: PendingOp) => op.id !in aIds, (op: PendingOp) => op.id !in bIds;
    FilterBoth(q, keepA, keepB);
    forall op | op in q ensures (keepA(op) && keepB(op)) == !Cancelled(q, account, op) {
      if !keepA(op) {
        var a, b :| a in q && b in q && Cancels(a, b, account) && a.id == op.id;
        SameIdSameOp(q, a, op);
      }
      if !keepB(op) {
        var a, b :| a in q && b in q && Cancels(a, b, account) && b.id == op.id;
        SameIdSameOp(q, b, op);
      }
    }
    FilterExt(q, (op: PendingOp) => keepA(op) && keepB(op), (op: PendingOp) => !Cancelled(q, account, op));
  }

  /** Snapshot of the pairs first, then one DELETE per side. */
  method CompactQueue(store: Store, account: string)
    requires UniqueIds(store.pending)
    modifies store
    ensures store.Snapshot() == old(store.Snapshot()).(pending := Compacted(old(store.pending), account))
  {
    ghost var q := store.pending;
    var aIds := set a, b | a in store.pending && b in store.pending && Cancels(a, b, account) :: a.id;
    var bIds := set a, b | a in store.pending && b in store.pending && Cancels(a, b, account) :: b.id;
    DeleteIds(store, aIds);
    DeleteIds(store, bIds);
    DeletedArePaired(q, account, aIds, bIds);
  }

  /** A second compaction removes nothing. */
  lemma CompactionIdempotent(q: seq<PendingOp>, account: string)
    ensures Compacted(Compacted(q, account), account) == Compacted(q, account)
  {
    var r := Compacted(q, account);
    FilterIn(q, (op: PendingOp) => !Cancelled(q, account, op));
    forall op | op in r ensures !Cancelled(r, account, op) {
      assert op in q && !Cancelled(q, account, op);
    }
    FilterAll(r, (op: PendingOp) => !Cancelled(r, account, op));
  }

  /** Only pending toggles of the account are ever removed. */
  lemma CompactionSpares(q: seq<PendingOp>, account: string, op: PendingOp)
    requires op in q
    requires op.account != account || op.status != Pending || !IsToggleType(op.opType) || ReadOf(op).None?
    ensures op in Compacted(q, account)
  {
    FilterIn(q, (op: PendingOp) => !Cancelled(q, account, op));
  }

  /** The pending toggles of one resource and type, oldest first. */
  function Group(q: seq<PendingOp>, account: string, resource: string, opType: string): seq<PendingOp> {
    Filter(q, (op: PendingOp) => InGroup(op, account, resource, opType))
  }

  lemma GroupIn(q: seq<PendingOp>, account: string, resource: string, opType: string)
    ensures forall op :: op in Group(q, account, resource, opType) <==>
              op in q && InGroup(op, account, resource, opType)
  {
    FilterIn(q, (op: PendingOp) => InGroup(op, account, resource, opType));
  }

  predicate ZeroOrOne(g: seq<PendingOp>) {
    forall i :: 0 <= i < |g| ==> ReadOf(g[i]) == Some(0) || ReadOf(g[i]) == Some(1)
  }

  /** How many operations switch off before the first one that switches on. */
  function LeadLen(g: seq<PendingOp>): (n: nat)
    ensures n <= |g|
    ensures forall i :: 0 <= i < n ==> ReadOf(g[i]) != Some(1)
    ensures n < |g| ==> ReadOf(g[n]) == Some(1)
  {
    if g == [] || ReadOf(g[0]) == Some(1) then 0 else 1 + LeadLen(g[1..])
  }

  /** Where the operations after the last one that switches off begin. */
  function TrailStart(g: seq<PendingOp>): (n: nat)
    ensures n <= |g|
    ensures forall i :: n <= i < |g| ==> ReadOf(g[i]) != Some(0)
    ensures n > 0 ==> ReadOf(g[n - 1]) == Some(0)
  {
    if g == [] || ReadOf(g[|g| - 1]) == Some(0) then |g| else TrailStart(g[..|g| - 1])
  }

  /** A 1 survives unless a later id says 0; a 0 unless an earlier id says 1. */
  predicate Survives(g: seq<PendingOp>, op: PendingOp) {
    && (ReadOf(op) == Some(1) ==> forall o :: o in g && ReadOf(o) == Some(0) ==> !Less(op.id, o.id))
    && (ReadOf(op) == Some(0) ==> forall o :: o in g && ReadOf(o) == Some(1) ==> !Less(o.id, op.id))
  }

  /** What compaction spares, whatever the order of the ids. */
  lemma SurvivesExactly(q: seq<PendingOp>, account: string, op: PendingOp)
    requires op in q && InGroup(op, account, op.resource, op.opType) && IsToggleType(op.opType)
    ensures !Cancelled(q, account, op) <==> Survives(Group(q, account, op.resource, op.opType), op)
  {
    hide ReadOf, Less;
    var g := Group(q, account, op.resource, op.opType);
    GroupIn(q, account, op.resource, op.opType);
    if Cancelled(q, account, op) {
      var other :| other in q && (Cancels(op, other, account) || Cancels(other, op, account));
      assert other in g;
    } else {
      forall o | o in g ensures !Cancels(op, o, account) && !Cancels(o, op, account) {}
    }
  }

  /** A group after compaction, whatever the order of the ids. */
  lemma GroupAfterCompaction(q: seq<PendingOp>, account: string, resource: string, opType: string)
    requires IsToggleType(opType)
    ensures var g := Group(q, account, resource, opType);
            Group(Compacted(q, account), account, resource, opType) == Filter(g, (op: PendingOp) => Survives(g, op))
  {
    hide Cancelled, ReadOf, Survives, Filter;
    var g := Group(q, account, resource, opType);
    var keep := (op: PendingOp) => !Cancelled(q, account, op);
    FilterCommutes(q, keep, (op: PendingOp) => InGroup(op, account, resource, opType));
    GroupIn(q, account, resource, opType);
    forall op | op in g ensures keep(op) == Survives(g, op) {
      SurvivesExactly(q, account, op);
    }
    FilterExt(g, keep, (op: PendingOp) => Survives(g, op));
  }

  lemma NotBefore(g: seq<PendingOp>, i: nat, j: nat)
    requires IdsIncrease(g) && i < |g| && j < |g| && Less(g[i].id, g[j].id)
    ensures i < j
  {
    if j < i {
      LessTransitive(g[i].id, g[j].id, g[i].id);
      LessIrreflexive(g[i].id);
    } else if i == j {
      LessIrreflexive(g[i].id);
    }
  }

  lemma IdBefore(g: seq<PendingOp>, i: nat, j: nat)
    requires IdsIncrease(g) && i < j < |g|
    ensures Less(g[i].id, g[j].id) && g[i] in g && g[j] in g
  {}

  lemma MiddleGoes(g: seq<PendingOp>, i: nat)
    requires IdsIncrease(g) && ZeroOrOne(g) && LeadLen(g) <= i < TrailStart(g)
    ensures !Survives(g, g[i])
  {
    hide Less, ReadOf, IdsIncrease;
    var on, off := LeadLen(g), TrailStart(g) - 1;
    assert ReadOf(g[on]) == Some(1) && ReadOf(g[off]) == Some(0);
    if ReadOf(g[i]) == Some(1) {
      assert i != off;
      IdBefore(g, i, off);
    } else {
      assert ReadOf(g[i]) == Some(0) && on != i;
      IdBefore(g, on, i);
    }
  }

  lemma EndStays(g: seq<PendingOp>, i: nat)
    requires IdsIncrease(g) && ZeroOrOne(g) && i < |g| && !(LeadLen(g) <= i < TrailStart(g))
    ensures Survives(g, g[i])
  {
    hide Less, ReadOf;
    forall o | o in g && ReadOf(g[i]) == Some(1) && ReadOf(o) == Some(0) ensures !Less(g[i].id, o.id) {
      var j :| 0 <= j < |g| && g[j] == o;
      if Less(g[i].id, o.id) { NotBefore(g, i, j); }
    }
    forall o | o in g && ReadOf(g[i]) == Some(0) && ReadOf(o) == Some(1) ensures !Less(o.id, g[i].id) {
      var j :| 0 <= j < |g| && g[j] == o;
      if Less(o.id, g[i].id) { NotBefore(g, j, i); }
    }
  }

  lemma EndsMeet(g: seq<PendingOp>)
    requires ZeroOrOne(g)
    ensures LeadLen(g) <= TrailStart(g)
  {
    var z, t := LeadLen(g), TrailStart(g);
    assert t < |g| ==> ReadOf(g[t]) == Some(0) || ReadOf(g[t]) == Some(1);
  }

  lemma EndsSurvive(g: seq<PendingOp>)
    requires IdsIncrease(g) && ZeroOrOne(g) && LeadLen(g) <= TrailStart(g)
    ensures Filter(g, (op: PendingOp) => Survives(g, op)) == g[..LeadLen(g)] + g[TrailStart(g)..]
  {
    hide ReadOf, Survives, Filter;
    var keep := (op: PendingOp) => Survives(g, op);
    var z, t := LeadLen(g), TrailStart(g);
    forall i | 0 <= i < |g| ensures keep(g[i]) <==> !(z <= i < t) {
      if z <= i < t { MiddleGoes(g, i); } else { EndStays(g, i); }
    }
    ThreeParts(g, z, t);
    FilterMiddle(g, g[..z], g[z..t], g[t..], keep);
  }

  /** With increasing ids a group keeps its leading 0s followed by its trailing 1s. */
  lemma Survivors(q: seq<PendingOp>, account: string, resource: string, opType: string)
    requires IsToggleType(opType)
    requires IdsIncrease(Group(q, account, resource, opType)) && ZeroOrOne(Group(q, account, resource, opType))
    ensures var g := Group(q, account, resource, opType);
            && LeadLen(g) <= TrailStart(g)
            && Group(Compacted(q, account), account, resource, opType) == g[..LeadLen(g)] + g[TrailStart(g)..]
  {
    hide ReadOf, Survives, InGroup, Filter, IdsIncrease;
    var g := Group(q, account, resource, opType);
    GroupAfterCompaction(q, account, resource, opType);
    EndsMeet(g);
    EndsSurvive(g);
  }

  // ---- Completion, failure, backoff ----

  function Pow2(n: nat): (p: nat)
    ensures p >= 1
  {
    if n == 0 then 1 else 2 * Pow2(n - 1)
  }

  /** `1 << n` on SQLite's signed 64-bit integers. */
  function ShiftOne(n: nat): int {
    if n < 63 then Pow2(n) else if n == 63 then -(Pow2(63) as int) else 0
  }

  /** Every right-hand side reads the row before the update. */
  function FailedOnce(op: PendingOp, now: int, error: string): PendingOp {
    op.(retryCount := op.retryCount + 1,
        nextRetryAt := Some(now + 60 * ShiftOne(op.retryCount)),
        error := Some(error),
        status := if op.retryCount + 1 >= op.maxRetries then Failed else Pending)
  }

  function WithFailure(q: seq<PendingOp>, id: string, now: int, error: string): (r: seq<PendingOp>)
    ensures |r| == |q|
  {
    seq(|q|, i requires 0 <= i < |q| => if q[i].id == id then FailedOnce(q[i], now, error) else q[i])
  }

  function Without(q: seq<PendingOp>, id: string): seq<PendingOp> {
    Filter(q, (op: PendingOp) => op.id != id)
  }

  method MarkCompleted(store: Store, id: string)
    modifies store
    ensures store.Snapshot() == old(store.Snapshot()).(pending := Without(old(store.pending), id))
  {
    store.pending := Filter(store.pending, (op: PendingOp) => op.id != id);
    store.Commit();
  }

  method MarkFailed(store: Store, id: string, now: int, error: string)
    modifies store
    ensures store.Snapshot() == old(store.Snapshot()).(pending := WithFailure(old(store.pending), id, now, error))
  {
    var q := store.pending;
    store.pending := seq(|q|, i requires 0 <= i < |q| => if q[i].id == id then FailedOnce(q[i], now, error) else q[i]);
    store.Commit();
  }

  /** The operation after failures at these times. */
  function AfterFailures(op: PendingOp, times: seq<int>, error: string): PendingOp {
    if times == [] then op
    else FailedOnce(AfterFailures(op, times[..|times| - 1], error), times[|times| - 1], error)
  }

  /** A fresh operation with limit M turns 'failed' on exactly its M-th failure (on
      the first one if M is not positive). */
  lemma {:induction false} FailsOnLastAttempt(op: PendingOp, times: seq<int>, error: string)
    requires op.status == Pending && op.retryCount == 0
    ensures var r := AfterFailures(op, times, error);
            && r.retryCount == |times| && r.maxRetries == op.maxRetries
            && (r.status == Failed <==> |times| >= 1 && |times| >= op.maxRetries)
  {
    if times != [] {
      FailsOnLastAttempt(op, times[..|times| - 1], error);
    }
  }

  /** A history of attempts: attempt i happens at `at[i]`, fails at `failed[i]`, and
      the next one happens once the row is due again. */
  ghost predicate History(op: PendingOp, at: seq<int>, failed: seq<int>, error: string)
    decreases |failed|
  {
    && |at| == |failed| + 1
    && (failed != [] ==>
          var n := |failed|;
          && History(op, at[..n], failed[..n - 1], error)
          && at[n - 1] <= failed[n - 1]
          && Due(AfterFailures(op, failed, error), op.account, at[n]))
  }

  /** The n-th attempt comes at least 60 * (2^(n-1) - 1) seconds after the first. */
  ghost predicate BacksOff(at: seq<int>) {
    at != [] && at[|at| - 1] >= at[0] + 60 * (Pow2(|at| - 1) - 1)
  }

  /** What `unixepoch()` can return. */
  predicate ClockTime(t: int) { 0 <= t < 0x8000_0000_0000_0000 }

  lemma {:induction false} Pow2Grows(m: nat, n: nat)
    requires m <= n
    ensures Pow2(m) <= Pow2(n)
  {
    if m < n { Pow2Grows(m, n - 1); }
  }

  lemma Pow2Of58()
    ensures Pow2(58) == 0x400_0000_0000_0000
  {
    assert Pow2(10) == 0x400;
    assert Pow2(20) == 0x10_0000;
    assert Pow2(30) == 0x4000_0000;
    assert Pow2(40) == 0x100_0000_0000;
    assert Pow2(50) == 0x4_0000_0000_0000;
  }

  /** Exponential backoff, whatever the limit: long before the shift could wrap, the
      next attempt lies beyond the clock. */
  lemma {:induction false} BackoffBound(op: PendingOp, at: seq<int>, failed: seq<int>, error: string)
    requires op.retryCount == 0 && op.status == Pending
    requires History(op, at, failed, error)
    requires forall i :: 0 <= i < |at| ==> ClockTime(at[i])
    ensures BacksOff(at) && |failed| <= 57
    decreases |failed|
  {
    var n := |failed|;
    if n > 0 {
      BackoffBound(op, at[..n], failed[..n - 1], error);
      FailsOnLastAttempt(op, failed[..n - 1], error);
      if n >= 58 { Pow2Of58(); Pow2Grows(58, n); }
    }
  }

  /** A failure changes the attempt count, the due time, the error and the status. */
  lemma {:induction false} FailureKeepsRow(op: PendingOp, times: seq<int>, error: string)
    ensures var r := AfterFailures(op, times, error);
            && r.id == op.id && r.account == op.account && r.opType == op.opType && r.resource == op.resource
            && r.params == op.params && r.maxRetries == op.maxRetries && r.createdAt == op.createdAt
            && r.error == if times == [] then op.error else Some(error)
  {
    if times != [] {
      FailureKeepsRow(op, times[..|times| - 1], error);
    }
  }

  const TWO63: int := 0x8000_0000_0000_0000
  const TWO64: int := 0x1_0000_0000_0000_0000

  lemma Pow2Of63()
    ensures Pow2(63) == TWO63 && Pow2(64) == TWO64
  {
    Pow2Of58();
    assert Pow2(63) == 32 * Pow2(58);
  }

  lemma {:induction false} Pow2Beyond(n: nat)
    requires n >= 64
    ensures Pow2(n) % TWO64 == 0
  {
    if n == 64 {
      Pow2Of63();
    } else {
      Pow2Beyond(n - 1);
    }
  }

  /** The shift is the power of two in signed 64-bit arithmetic. */
  lemma ShiftIs64Bit(n: nat)
    ensures -TWO63 <= ShiftOne(n) < TWO63 && (Pow2(n) - ShiftOne(n)) % TWO64 == 0
  {
    Pow2Of63();
    if n < 63 {
      Pow2Grows(n, 62);
      assert Pow2(63) == 2 * Pow2(62);
    } else if n > 63 {
      Pow2Beyond(n);
    }
  }

  /** The exact due time: after its n-th failure a row with attempts left is due
      60 * 2^(n-1) seconds later, and not before. */
  lemma DueExactly(op: PendingOp, times: seq<int>, error: string, t: int)
    requires op.retryCount == 0 && op.status == Pending
    requires 0 < |times| <= 57 && |times| < op.maxRetries
    ensures Due(AfterFailures(op, times, error), op.account, t) <==>
              t >= times[|times| - 1] + 60 * Pow2(|times| - 1)
  {
    FailsOnLastAttempt(op, times, error);
    FailsOnLastAttempt(op, times[..|times| - 1], error);
    FailureKeepsRow(op, times, error);
  }

  /** The earliest time of attempt `i`. */
  function EagerTime(i: nat): int {
    60 * (Pow2(i) - 1)
  }

  function EagerTimes(n: nat): (times: seq<int>)
    ensures |times| == n
  {
    seq(n, i requires 0 <= i < n => EagerTime(i))
  }

  /** The bound is reached: a client that retries as soon as the row is due makes its
      n-th attempt exactly 60 * (2^(n-1) - 1) seconds after the first. */
  lemma {:induction false} BoundIsReached(op: PendingOp, n: nat, error: string)
    requires op.retryCount == 0 && op.status == Pending && op.nextRetryAt.None?
    requires n <= 57 && n < op.maxRetries
    ensures History(op, EagerTimes(n + 1), EagerTimes(n), error)
    ensures EagerTimes(n + 1)[0] == 0 && EagerTimes(n + 1)[n] == 60 * (Pow2(n) - 1)
  {
    if n > 0 {
      BoundIsReached(op, n - 1, error);
      var at, failed := EagerTimes(n + 1), EagerTimes(n);
      assert at[..n] == EagerTimes(n) && failed[..n - 1] == EagerTimes(n - 1);
      DueExactly(op, failed, error, at[n]);
    }
  }

  // ---- Termination of replay ----

  /** Pending rows have attempts left; true of fresh rows and kept by every step. */
  ghost predicate AttemptsLeft(q: seq<PendingOp>) {
    forall op :: op in q && op.status == Pending ==> op.retryCount < op.maxRetries
  }

  function Remaining(op: PendingOp): int {
    if op.status == Pending then op.maxRetries - op.retryCount else 0
  }

  function Measure(q: seq<PendingOp>): int {
    if q == [] then 0 else Measure(q[..|q| - 1]) + Remaining(q[|q| - 1])
  }

  datatype Verdict = Completed(id: string) | FailedAt(id: string, now: int, error: string)

  function Settle(q: seq<PendingOp>, v: Verdict): seq<PendingOp> {
    match v
    case Completed(id) => Without(q, id)
    case FailedAt(id, now, error) => WithFailure(q, id, now, error)
  }

  ghost predicate IsPending(q: seq<PendingOp>, id: string) {
    exists op :: op in q && op.id == id && op.status == Pending
  }

  lemma {:induction false} MeasureNonNegative(q: seq<PendingOp>)
    requires AttemptsLeft(q)
    ensures Measure(q) >= 0
  {
    if q != [] {
      MeasureNonNegative(q[..|q| - 1]);
      assert q[|q| - 1] in q;
    }
  }

  lemma {:induction false} SettleAbsent(q: seq<PendingOp>, v: Verdict)
    requires forall op :: op in q ==> op.id != v.id
    ensures Settle(q, v) == q
  {
    if v.Completed? {
      FilterAll(q, (op: PendingOp) => op.id != v.id);
    } else {
      assert WithFailure(q, v.id, v.now, v.error) == q;
    }
  }

  /** Settling acts row by row. */
  lemma SettleLast(q: seq<PendingOp>, v: Verdict)
    requires q != []
    ensures var init, last := q[..|q| - 1], q[|q| - 1];
            Settle(q, v) == Settle(init, v)
              + (if last.id != v.id then [last] else if v.Completed? then [] else [FailedOnce(last, v.now, v.error)])
  {
    var init := q[..|q| - 1];
    if v.FailedAt? {
      assert Settle(q, v)[..|q| - 1] == Settle(init, v);
    }
  }

  lemma MeasureLast(q: seq<PendingOp>, op: PendingOp)
    ensures Measure(q + [op]) == Measure(q) + Remaining(op)
  {
    assert (q + [op])[..|q|] == q;
  }

  lemma SettleLastDecreases(init: seq<PendingOp>, last: PendingOp, v: Verdict)
    requires UniqueIds(init + [last]) && last.id == v.id
    requires last.status == Pending && last.retryCount < last.maxRetries
    ensures Measure(Settle(init + [last], v)) < Measure(init + [last])
  {
    var q := init + [last];
    assert q[..|q| - 1] == init;
    forall o | o in init ensures o.id != v.id {
      var i :| 0 <= i < |init| && init[i] == o;
      assert q[i] == o && q[|init|] == last;
    }
    SettleLast(q, v);
    SettleAbsent(init, v);
    MeasureLast(init, last);
    if v.FailedAt? { MeasureLast(init, FailedOnce(last, v.now, v.error)); }
  }

  /** Each completion or failure of a pending operation uses up an attempt. */
  lemma {:induction false} SettleDecreases(q: seq<PendingOp>, v: Verdict)
    requires UniqueIds(q) && AttemptsLeft(q) && IsPending(q, v.id)
    ensures Measure(Settle(q, v)) < Measure(q)
  {
    hide Settle, Measure;
    var op :| op in q && op.id == v.id && op.status == Pending;
    var init, last := q[..|q| - 1], q[|q| - 1];
    assert q == init + [last] && last in q;
    if last.id == v.id {
      SameIdSameOp(q, op, last);
      SettleLastDecreases(init, last, v);
    } else {
      assert op in init;
      SettleDecreases(init, v);
      SettleLast(q, v);
      MeasureLast(init, last);
      MeasureLast(Settle(init, v), last);
    }
  }

  lemma SettleKeeps(q: seq<PendingOp>, v: Verdict)
    requires UniqueIds(q) && AttemptsLeft(q)
    ensures UniqueIds(Settle(q, v)) && AttemptsLeft(Settle(q, v))
  {
    match v
    case Completed(id) =>
      FilterKeepsOrder(q, (op: PendingOp) => op.id != id);
      FilterIn(q, (op: PendingOp) => op.id != id);
    case FailedAt(id, now, error) =>
      var r := WithFailure(q, id, now, error);
      forall op | op in r && op.status == Pending ensures op.retryCount < op.maxRetries {
        var i :| 0 <= i < |r| && r[i] == op;
        assert q[i] in q;
      }
  }

  /** A run of verdicts, each on an operation still pending. */
  ghost predicate ValidVerdicts(q: seq<PendingOp>, vs: seq<Verdict>)
    decreases |vs|
  {
    vs == [] || (IsPending(q, vs[0].id) && ValidVerdicts(Settle(q, vs[0]), vs[1..]))
  }

  function SettleAll(q: seq<PendingOp>, vs: seq<Verdict>): seq<PendingOp>
    decreases |vs|
  {
    if vs == [] then q else SettleAll(Settle(q, vs[0]), vs[1..])
  }

  /** Replay drains any queue: no run of verdicts is longer than the attempts left. */
  lemma {:induction false} DrainBound(q: seq<PendingOp>, vs: seq<Verdict>)
    requires UniqueIds(q) && AttemptsLeft(q) && ValidVerdicts(q, vs)
    ensures |vs| + Measure(SettleAll(q, vs)) <= Measure(q)
    ensures |vs| <= Measure(q)
    decreases |vs|
  {
    if vs != [] {
      SettleDecreases(q, vs[0]);
      SettleKeeps(q, vs[0]);
      DrainBound(Settle(q, vs[0]), vs[1..]);
    } else {
      MeasureNonNegative(q);
    }
  }
}
