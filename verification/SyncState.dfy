/** IMAP folder cursors: a conditional maximum within one UIDVALIDITY. */
module SyncState {
  import opened Prelude
  import opened Schema

  /** Rust's `u64`. */
  type u64 = x: int | 0 <= x < 0x1_0000_0000_0000_0000

  const TWO63: int := 0x8000_0000_0000_0000
  const TWO64: int := 0x1_0000_0000_0000_0000

  /** `as i64` and `as u64`: the same 64 bits. */
  function AsI64(x: u64): int { if x < TWO63 then x else x - TWO64 }
  function AsU64(y: int): u64
    requires -TWO63 <= y < TWO63
  {
    if y >= 0 then y else y + TWO64
  }

  datatype Cursor = Cursor(uidValidity: u32, highestUid: u32, highestModseq: u64)

  const INITIAL: Cursor := Cursor(0, 0, 0)

  /** INSERT ... ON CONFLICT DO UPDATE with the CASE on UIDVALIDITY. */
  function Merged(row: Option<SyncRow>, c: Cursor): SyncRow {
    match row
    case None => SyncRow(c.uidValidity, c.highestUid, AsI64(c.highestModseq))
    case Some(r) =>
      if r.uidValidity == c.uidValidity
      then SyncRow(c.uidValidity, Max(c.highestUid, r.lastUid), Max(AsI64(c.highestModseq), r.modseq))
      else SyncRow(c.uidValidity, c.highestUid, AsI64(c.highestModseq))
  }

  predicate InRange(row: Option<SyncRow>) {
    row.Some? ==> -TWO63 <= row.value.modseq < TWO63
  }

  function Read(row: Option<SyncRow>): Cursor
    requires InRange(row)
  {
    match row
    case None => INITIAL
    case Some(r) => Cursor(r.uidValidity, r.lastUid, AsU64(r.modseq))
  }

  function RowAt(db: Db, k: Key): Option<SyncRow> {
    if k in db.syncState then Some(db.syncState[k]) else None
  }

  /** `k` is the account and the folder path. */
  method AdvanceImapCursor(store: Store, k: Key, c: Cursor)
    modifies store
    ensures store.Snapshot()
        == old(store.Snapshot()).(syncState := old(store.syncState)[k := Merged(RowAt(old(store.Snapshot()), k), c)])
  {
    if k in store.syncState {
      var r := store.syncState[k];
      var same := r.uidValidity == c.uidValidity;
      var modseq := AsI64(c.highestModseq);
      var uid: u32 := if same && r.lastUid > c.highestUid then r.lastUid else c.highestUid;
      var greater := if same && r.modseq > modseq then r.modseq else modseq;
      store.syncState := store.syncState[k := SyncRow(c.uidValidity, uid, greater)];
    } else {
      store.syncState := store.syncState[k := SyncRow(c.uidValidity, c.highestUid, AsI64(c.highestModseq))];
    }
    store.Commit();
  }

  method GetImapCursor(store: Store, k: Key) returns (c: Cursor)
    requires InRange(RowAt(store.Snapshot(), k))
    ensures c == Read(RowAt(store.Snapshot(), k))
    ensures k !in store.syncState ==> c == Cursor(0, 0, 0)
    ensures k in store.syncState ==>
              c.uidValidity == store.syncState[k].uidValidity && c.highestUid == store.syncState[k].lastUid
  {
    if k in store.syncState {
      var r := store.syncState[k];
      c := Cursor(r.uidValidity, r.lastUid, AsU64(r.modseq));
    } else {
      c := Cursor(0, 0, 0);
    }
  }

  // ---- Runs of advances ----

  /** The row after a sequence of advances. */
  function After(cs: seq<Cursor>): (row: Option<SyncRow>)
    ensures InRange(row) && (row.None? <==> cs == [])
  {
    if cs == [] then None else Some(Merged(After(cs[..|cs| - 1]), cs[|cs| - 1]))
  }

  /** Where the last epoch begins: the longest suffix with one UIDVALIDITY. */
  function EpochStart(cs: seq<Cursor>): (n: nat)
    ensures n <= |cs|
    ensures forall i :: n <= i < |cs| ==> cs[i].uidValidity == cs[|cs| - 1].uidValidity
    ensures 0 < n < |cs| ==> cs[n - 1].uidValidity != cs[|cs| - 1].uidValidity
    ensures cs != [] ==> n < |cs|
  {
    if |cs| <= 1 then 0
    else
      var init := cs[..|cs| - 1];
      if init[|init| - 1].uidValidity == cs[|cs| - 1].uidValidity then EpochStart(init) else |init|
  }

  /** `v` is the greatest of the values `f` takes on `cs[from..]`. */
  ghost predicate IsMaximum(cs: seq<Cursor>, from: nat, f: Cursor -> int, v: int) {
    && (exists i :: from <= i < |cs| && f(cs[i]) == v)
    && (forall i :: from <= i < |cs| ==> f(cs[i]) <= v)
  }

  const UID: Cursor -> int := (c: Cursor) => c.highestUid
  const SIGNED_MODSEQ: Cursor -> int := (c: Cursor) => AsI64(c.highestModseq)
  const MODSEQ: Cursor -> int := (c: Cursor) => c.highestModseq

  lemma MaximumNext(cs: seq<Cursor>, c: Cursor, from: nat, f: Cursor -> int, v: int)
    requires IsMaximum(cs, from, f, v)
    ensures IsMaximum(cs + [c], from, f, Max(f(c), v))
  {
    var i :| from <= i < |cs| && f(cs[i]) == v;
    assert f((cs + [c])[i]) == v && f((cs + [c])[|cs|]) == f(c);
  }

  /** For all 64-bit modseqs: the last UIDVALIDITY, with the maxima over the last
      epoch, modseqs compared as signed numbers. */
  lemma {:induction false} SignedSuffixMaximum(cs: seq<Cursor>)
    requires cs != []
    ensures var r := After(cs).value;
            && r.uidValidity == cs[|cs| - 1].uidValidity
            && IsMaximum(cs, EpochStart(cs), UID, r.lastUid)
            && IsMaximum(cs, EpochStart(cs), SIGNED_MODSEQ, r.modseq)
  {
    var init, last := cs[..|cs| - 1], cs[|cs| - 1];
    var r := After(cs).value;
    if init != [] && init[|init| - 1].uidValidity == last.uidValidity {
      SignedSuffixMaximum(init);
      MaximumNext(init, last, EpochStart(init), UID, After(init).value.lastUid);
      MaximumNext(init, last, EpochStart(init), SIGNED_MODSEQ, After(init).value.modseq);
      assert init + [last] == cs;
    } else {
      if init != [] { SignedSuffixMaximum(init); }
      assert UID(cs[|cs| - 1]) == r.lastUid && SIGNED_MODSEQ(cs[|cs| - 1]) == r.modseq;
    }
  }

  /** The modseqs of the last epoch are all below 2^63 or all at least 2^63. */
  ghost predicate OneSided(cs: seq<Cursor>) {
    || (forall i :: EpochStart(cs) <= i < |cs| ==> cs[i].highestModseq < TWO63)
    || (forall i :: EpochStart(cs) <= i < |cs| ==> cs[i].highestModseq >= TWO63)
  }

  /** The cursor read back after any advances: the last UIDVALIDITY and the greatest
      UID of its epoch; the greatest modseq exactly when none of them crosses 2^63. */
  lemma CursorIsSuffixMaximum(cs: seq<Cursor>)
    requires cs != []
    ensures Read(After(cs)).uidValidity == cs[|cs| - 1].uidValidity
    ensures IsMaximum(cs, EpochStart(cs), UID, Read(After(cs)).highestUid)
    ensures IsMaximum(cs, EpochStart(cs), MODSEQ, Read(After(cs)).highestModseq) <==> OneSided(cs)
  {
    SignedSuffixMaximum(cs);
    var r, c := After(cs).value, Read(After(cs));
    var i :| EpochStart(cs) <= i < |cs| && SIGNED_MODSEQ(cs[i]) == r.modseq;
    assert MODSEQ(cs[i]) == c.highestModseq;
    if OneSided(cs) {
      forall j | EpochStart(cs) <= j < |cs| ensures MODSEQ(cs[j]) <= c.highestModseq {
        assert SIGNED_MODSEQ(cs[j]) <= SIGNED_MODSEQ(cs[i]);
      }
    }
    if IsMaximum(cs, EpochStart(cs), MODSEQ, c.highestModseq) {
      forall j | EpochStart(cs) <= j < |cs| ensures (cs[j].highestModseq < TWO63) == (cs[i].highestModseq < TWO63) {
        assert SIGNED_MODSEQ(cs[j]) <= SIGNED_MODSEQ(cs[i]);
        assert MODSEQ(cs[j]) <= MODSEQ(cs[i]);
      }
    }
  }

  /** A modseq of 2^63 or more loses to any smaller one: it reads as negative. */
  lemma WideModseqLost()
    ensures Read(After([Cursor(1, 0, TWO63), Cursor(1, 0, 1)])) == Cursor(1, 0, 1)
  {
    var cs := [Cursor(1, 0, TWO63), Cursor(1, 0, 1)];
    assert cs[..1] == [Cursor(1, 0, TWO63)] && cs[..1][..0] == [];
    assert After(cs[..1]) == Some(SyncRow(1, 0, -TWO63));
  }

  lemma WholeEpoch(cs: seq<Cursor>, v: u32)
    requires cs != [] && forall i :: 0 <= i < |cs| ==> cs[i].uidValidity == v
    ensures EpochStart(cs) == 0
  {}

  lemma SameMaximum(cs: seq<Cursor>, ds: seq<Cursor>, f: Cursor -> int, v: int, w: int)
    requires forall c :: c in cs <==> c in ds
    requires IsMaximum(cs, 0, f, v) && IsMaximum(ds, 0, f, w)
    ensures v == w
  {
    var i :| 0 <= i < |cs| && f(cs[i]) == v;
    var j :| 0 <= j < |ds| && f(ds[j]) == w;
    assert cs[i] in ds && ds[j] in cs;
    var i' :| 0 <= i' < |ds| && ds[i'] == cs[i];
    var j' :| 0 <= j' < |cs| && cs[j'] == ds[j];
  }

  /** Within one epoch neither order nor repetition matters. */
  lemma OrderIrrelevant(cs: seq<Cursor>, ds: seq<Cursor>, v: u32)
    requires cs != [] && ds != []
    requires forall c :: c in cs <==> c in ds
    requires forall c :: c in cs ==> c.uidValidity == v
    ensures After(cs) == After(ds)
  {
    SignedSuffixMaximum(cs);
    SignedSuffixMaximum(ds);
    assert forall i :: 0 <= i < |cs| ==> cs[i] in cs;
    assert forall i :: 0 <= i < |ds| ==> ds[i] in cs;
    WholeEpoch(cs, v);
    WholeEpoch(ds, v);
    SameMaximum(cs, ds, UID, After(cs).value.lastUid, After(ds).value.lastUid);
    SameMaximum(cs, ds, SIGNED_MODSEQ, After(cs).value.modseq, After(ds).value.modseq);
    assert cs[|cs| - 1] in cs && ds[|ds| - 1] in ds;
  }
}
