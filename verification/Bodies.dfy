/** The bounded cache of message bodies and the `body_cached` column that stands
    for it. */
module Bodies {
  import opened Prelude
  import opened Text
  import opened Schema
  import Delta
  import Messages

  // ---- Specification ----

  /** Storing a body needs its message row: the foreign key refuses it otherwise. */
  function WithBody(db: Db, k: Key, html: string, now: int): Result<Db> {
    if k !in db.messages then Err("FOREIGN KEY constraint failed")
    else Ok(db.(bodies := db.bodies[k := Body(html, now)],
                messages := db.messages[k := db.messages[k].(bodyCached := true)]))
  }

  function WithoutBody(db: Db, k: Key): Db {
    db.(bodies := db.bodies - {k},
        messages := if k in db.messages then db.messages[k := db.messages[k].(bodyCached := false)] else db.messages)
  }

  /** The flag is cleared by message id alone, whatever the account. */
  function ClearCached(messages: map<Key, Message>, ids: set<string>): map<Key, Message> {
    map k | k in messages :: if k.id in ids then messages[k].(bodyCached := false) else messages[k]
  }

  function IdsOf(ks: set<Key>): (ids: set<string>)
    ensures forall k :: k in ks ==> k.id in ids
    ensures forall id :: id in ids ==> exists k :: k in ks && k.id == id
  {
    set k | k in ks :: k.id
  }

  /** One eviction: these rows go, and the flags of these message ids. */
  function Evicted(db: Db, victims: set<Key>): Db {
    db.(bodies := db.bodies - victims, messages := ClearCached(db.messages, IdsOf(victims)))
  }

  /** `n` rows none of which is fresher than a row left behind. */
  ghost predicate Oldest(bodies: map<Key, Body>, victims: set<Key>, n: nat) {
    && victims <= bodies.Keys && |victims| == n
    && forall v, k :: v in victims && k in bodies && k !in victims ==> bodies[v].fetchedAt <= bodies[k].fetchedAt
  }

  // ---- Methods ----

  method SetMessageBody(store: Store, k: Key, html: string, now: int) returns (ok: bool)
    modifies store
    ensures var r := WithBody(old(store.Snapshot()), k, html, now);
            ok == r.Ok? && store.Snapshot() == if ok then r.value else old(store.Snapshot())
  {
    if k !in store.messages { return false; }
    store.bodies := store.bodies[k := Body(html, now)];
    store.messages := store.messages[k := store.messages[k].(bodyCached := true)];
    store.Commit();
    return true;
  }

  method EvictBody(store: Store, k: Key)
    modifies store
    ensures store.Snapshot() == WithoutBody(old(store.Snapshot()), k)
  {
    store.bodies := store.bodies - {k};
    if k in store.messages {
      store.messages := store.messages[k := store.messages[k].(bodyCached := false)];
    }
    store.Commit();
  }

  lemma OldestBody(bodies: map<Key, Body>, ks: set<Key>)
    requires ks != {} && ks <= bodies.Keys
    ensures exists k :: k in ks && forall j :: j in ks ==> bodies[k].fetchedAt <= bodies[j].fetchedAt
  {
    var f := (k: Key) => if k in bodies then bodies[k].fetchedAt else 0;
    LeastExists(ks, f);
    var k :| k in ks && forall j :: j in ks ==> f(k) <= f(j);
    assert forall j :: j in ks ==> f(j) == bodies[j].fetchedAt;
  }

  /** ORDER BY fetched_at ASC LIMIT n, ties broken any way. */
  method SelectOldest(bodies: map<Key, Body>, n: nat) returns (victims: set<Key>)
    ensures Oldest(bodies, victims, Min(n, |bodies|))
  {
    victims := {};
    while |victims| < n && victims != bodies.Keys
      invariant victims <= bodies.Keys && |victims| <= n
      invariant forall v, k :: v in victims && k in bodies && k !in victims ==>
        bodies[v].fetchedAt <= bodies[k].fetchedAt
      decreases |bodies.Keys - victims|
    {
      OldestBody(bodies, bodies.Keys - victims);
      var k :| k in bodies.Keys - victims && forall j :: j in bodies.Keys - victims ==>
          bodies[k].fetchedAt <= bodies[j].fetchedAt;
      ghost var rest := bodies.Keys - victims;
      victims := victims + {k};
      assert bodies.Keys - victims == rest - {k};
    }
    assert |bodies| == |bodies.Keys| && |bodies.Keys - victims| == |bodies.Keys| - |victims|;
  }

  lemma ClearNone(messages: map<Key, Message>)
    ensures ClearCached(messages, {}) == messages && IdsOf({}) == {}
  {}

  lemma ClearMore(messages: map<Key, Message>, a: set<string>, b: set<string>)
    ensures ClearCached(ClearCached(messages, a), b) == ClearCached(messages, a + b)
  {}

  /** Clears the flags one message id after the other. */
  method ClearFlags(store: Store, gone: set<Key>)
    modifies store`messages
    ensures store.messages == ClearCached(old(store.messages), IdsOf(gone))
  {
    hide ClearCached;
    ghost var messages := store.messages;
    var todo := gone;
    ClearNone(messages);
    assert gone - todo == {};
    while todo != {}
      invariant todo <= gone
      invariant store.messages == ClearCached(messages, IdsOf(gone - todo))
      decreases |todo|
    {
      var k :| k in todo;
      ghost var done := gone - todo;
      todo := todo - {k};
      assert IdsOf(gone - todo) == IdsOf(done) + {k.id} by { assert gone - todo == done + {k}; }
      ClearMore(messages, IdsOf(done), {k.id});
      store.messages := ClearCached(store.messages, {k.id});
    }
    assert gone - {} == gone;
  }

  /** Evicts the oldest rows beyond the cap and clears their flags. */
  method MaybeEvict(store: Store, cap: int) returns (n: nat, ghost victims: set<Key>)
    modifies store
    ensures store.Snapshot() == Evicted(old(store.Snapshot()), victims)
    ensures n == Max(0, Min(|old(store.bodies)|, |old(store.bodies)| - cap))
    ensures Oldest(old(store.bodies), victims, n)
  {
    var count := |store.bodies|;
    victims := {};
    if count <= cap {
      ClearNone(store.messages);
      assert store.bodies - {} == store.bodies;
      return 0, {};
    }
    var gone := SelectOldest(store.bodies, count - cap);
    n := |gone|;
    store.bodies := store.bodies - gone;
    ClearFlags(store, gone);
    store.Commit();
    victims := gone;
  }

  // ---- The flag is the table ----

  lemma SetBodyKeepsInv(db: Db, k: Key, html: string, now: int)
    requires Inv(db) && WithBody(db, k, html, now).Ok?
    ensures Inv(WithBody(db, k, html, now).value)
  {
    var after := WithBody(db, k, html, now).value;
    forall j ensures WellKeyedCell(j, CellAt(after, j)) && CoherentCell(CellAt(after, j)) {
      assert WellKeyedCell(j, CellAt(db, j)) && CoherentCell(CellAt(db, j));
      assert LabelsOf(after, j) == LabelsOf(db, j);
    }
  }

  /** Evicting a body right after it was first stored undoes the store. */
  lemma EvictUndoesStore(db: Db, k: Key, html: string, now: int)
    requires Inv(db) && k in db.messages && k !in db.bodies
    ensures WithBody(db, k, html, now).Ok? && WithoutBody(WithBody(db, k, html, now).value, k) == db
  {
    assert CoherentCell(CellAt(db, k));
    var back := WithoutBody(WithBody(db, k, html, now).value, k);
    assert back.bodies == db.bodies && back.messages == db.messages;
  }

  /** A body fetched later than all others outlives any eviction that keeps at least one
      row, with the content it was stored with. */
  lemma FreshBodySurvives(db: Db, k: Key, html: string, now: int, cap: int, victims: set<Key>)
    requires k in db.messages && cap >= 1
    requires forall j :: j in db.bodies && j != k ==> db.bodies[j].fetchedAt < now
    requires var stored := WithBody(db, k, html, now);
             stored.Ok? && var n := |stored.value.bodies|; Oldest(stored.value.bodies, victims, Max(0, Min(n, n - cap)))
    ensures var after := Evicted(WithBody(db, k, html, now).value, victims);
            && k in after.bodies && after.bodies[k].html == html && after.bodies[k].fetchedAt == now
            && (forall j :: j != k && j in after.bodies ==> j in db.bodies && after.bodies[j] == db.bodies[j])
  {
    var stored := WithBody(db, k, html, now).value;
    var keys := stored.bodies.Keys;
    assert |stored.bodies| == |keys| && |keys - victims| == |keys| - |victims|;
    assert k in keys && |keys| > 0 by { assert keys != {}; }
    var left :| left in keys - victims;
  }

  lemma EvictKeepsInv(db: Db, k: Key)
    requires Inv(db)
    ensures Inv(WithoutBody(db, k))
  {
    var after := WithoutBody(db, k);
    forall j ensures WellKeyedCell(j, CellAt(after, j)) && CoherentCell(CellAt(after, j)) {
      assert WellKeyedCell(j, CellAt(db, j)) && CoherentCell(CellAt(db, j));
      assert LabelsOf(after, j) == LabelsOf(db, j);
    }
  }

  /** Clearing by id alone is clearing by key: ids spell their account. */
  lemma EvictedCell(db: Db, victims: set<Key>, j: Key)
    requires Inv(db) && victims <= db.bodies.Keys
    ensures CellAt(Evicted(db, victims), j)
         == if j in victims then CellAt(db, j).(body := None, msg := Some(db.messages[j].(bodyCached := false)))
            else CellAt(db, j)
  {
    var after := Evicted(db, victims);
    assert WellKeyedCell(j, CellAt(db, j));
    assert LabelsOf(after, j) == LabelsOf(db, j);
    if j in db.messages && j.id in IdsOf(victims) {
      var v :| v in victims && v.id == j.id;
      assert WellKeyedCell(v, CellAt(db, v));
      SameIdSameKey(v, j);
    }
  }

  lemma MaybeEvictKeepsInv(db: Db, victims: set<Key>)
    requires Inv(db) && victims <= db.bodies.Keys
    ensures Inv(Evicted(db, victims))
  {
    var after := Evicted(db, victims);
    forall j ensures WellKeyedCell(j, CellAt(after, j)) && CoherentCell(CellAt(after, j)) {
      assert WellKeyedCell(j, CellAt(db, j)) && CoherentCell(CellAt(db, j));
      EvictedCell(db, victims, j);
    }
  }

  /** In a coherent store the ids the prefetch finds uncached are exactly the requested
      messages without a body row. */
  lemma UncachedExact(db: Db, account: string, ids: seq<string>, id: string)
    requires Inv(db)
    ensures id in Messages.Uncached(db, account, ids)
       <==> id in ids && Key(account, id) in db.messages && Key(account, id) !in db.bodies
  {
    assert CoherentCell(CellAt(db, Key(account, id)));
  }

  /** After an eviction to `cap` rows min(count, cap) bodies are left, none older than
      an evicted one, and the store is coherent. */
  lemma EvictionExact(db: Db, cap: int, victims: set<Key>)
    requires Inv(db)
    requires Oldest(db.bodies, victims, Max(0, Min(|db.bodies|, |db.bodies| - cap)))
    ensures |Evicted(db, victims).bodies| == Max(0, Min(|db.bodies|, cap))
    ensures forall v, k :: v in victims && k in Evicted(db, victims).bodies ==>
              db.bodies[v].fetchedAt <= Evicted(db, victims).bodies[k].fetchedAt
    ensures Inv(Evicted(db, victims))
  {
    var after := Evicted(db, victims);
    assert after.bodies.Keys == db.bodies.Keys - victims;
    assert |after.bodies| == |after.bodies.Keys| && |db.bodies| == |db.bodies.Keys|;
    MaybeEvictKeepsInv(db, victims);
  }
}
