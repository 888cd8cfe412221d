/** The on-disk attachment cache and its reconciliation with the database. A path is
    a sequence of segments; file operations succeed. */
module AttachmentCache {
  import opened Prelude
  import opened Text
  import opened Schema

  type Path = seq<string>

  // ---- Where a message's files live ----

  predicate Reserved(c: char) {
    c in "\\/:*?\"<>|"
  }

  /** `char::is_whitespace`. */
  predicate IsSpace(c: char) {
    var n := c as int;
    9 <= n <= 13 || n in {0x20, 0x85, 0xA0, 0x1680, 0x2028, 0x2029, 0x202F, 0x205F, 0x3000} || 0x2000 <= n <= 0x200A
  }

  function ReplaceReserved(s: string): (r: string)
    ensures |r| == |s|
  {
    seq(|s|, i requires 0 <= i < |s| => if Reserved(s[i]) then '_' else s[i])
  }

  function TrimStart(s: string): string {
    if s != [] && IsSpace(s[0]) then TrimStart(s[1..]) else s
  }

  function TrimEnd(s: string): string {
    if s != [] && IsSpace(s[|s| - 1]) then TrimEnd(s[..|s| - 1]) else s
  }

  function Sanitize(segment: string): string {
    TrimEnd(TrimStart(ReplaceReserved(segment)))
  }

  /** Bytes of a character in UTF-8. */
  function Utf8Len(c: char): nat {
    if c as int < 0x80 then 1 else if c as int < 0x800 then 2 else if c as int < 0x1_0000 then 3 else 4
  }

  /** The first two bytes, or everything if those are no whole characters. */
  function Shard(s: string): string {
    if |s| >= 1 && Utf8Len(s[0]) == 2 then s[..1]
    else if |s| >= 2 && Utf8Len(s[0]) == 1 && Utf8Len(s[1]) == 1 then s[..2]
    else s
  }

  function MessageCacheDir(root: Path, account: string, message: string): (d: Path)
    ensures |d| == |root| + 3 && root <= d
    ensures d[|root|] == Sanitize(account) && d[|root| + 2] == Sanitize(message)
    ensures d[|root| + 1] == Shard(Sanitize(message))
  {
    root + [Sanitize(account), Shard(Sanitize(message)), Sanitize(message)]
  }

  /** Ids that name their own directory. */
  predicate Clean(id: string) {
    && (forall i :: 0 <= i < |id| ==> !Reserved(id[i]))
    && (id != [] ==> !IsSpace(id[0]) && !IsSpace(id[|id| - 1]))
  }

  lemma CleanIsSanitized(id: string)
    requires Clean(id)
    ensures Sanitize(id) == id
  {
    assert ReplaceReserved(id) == id;
  }

  lemma {:induction false} TrimsToPart(s: string)
    ensures forall c :: c in TrimStart(s) ==> c in s
    ensures forall c :: c in TrimEnd(s) ==> c in s
  {
    if s != [] {
      TrimsToPart(s[1..]);
      TrimsToPart(s[..|s| - 1]);
    }
  }

  /** A directory name never holds a reserved character. */
  lemma SanitizedIsSafe(segment: string)
    ensures forall c :: c in Sanitize(segment) ==> !Reserved(c) && c !in "\\/:*?\"<>|"
  {
    var replaced := ReplaceReserved(segment);
    TrimsToPart(replaced);
    TrimsToPart(TrimStart(replaced));
  }

  function Trimmed(s: string): string {
    TrimEnd(TrimStart(s))
  }

  predicate DotFirst(s: string) { s != [] && s[0] == '.' }
  predicate DotLast(s: string) { s != [] && s[|s| - 1] == '.' }

  lemma {:induction false} TrimStartReplaced(s: string)
    ensures TrimStart(ReplaceReserved(s)) == ReplaceReserved(TrimStart(s))
  {
    if s != [] {
      TrimStartReplaced(s[1..]);
      assert ReplaceReserved(s)[1..] == ReplaceReserved(s[1..]);
    }
  }

  lemma {:induction false} TrimEndReplaced(s: string)
    ensures TrimEnd(ReplaceReserved(s)) == ReplaceReserved(TrimEnd(s))
  {
    if s != [] {
      TrimEndReplaced(s[..|s| - 1]);
      assert ReplaceReserved(s)[..|s| - 1] == ReplaceReserved(s[..|s| - 1]);
    }
  }

  /** Boundary dots are left as they are: a directory name has one exactly when the
      trimmed segment has, and "." and ".." name themselves. */
  lemma DotsStay(s: string)
    ensures Sanitize(s) == ReplaceReserved(Trimmed(s))
    ensures DotFirst(Sanitize(s)) <==> DotFirst(Trimmed(s))
    ensures DotLast(Sanitize(s)) <==> DotLast(Trimmed(s))
    ensures Sanitize(s) == "." <==> Trimmed(s) == "."
    ensures Sanitize(s) == ".." <==> Trimmed(s) == ".."
  {
    TrimStartReplaced(s);
    TrimEndReplaced(TrimStart(s));
    assert forall i :: 0 <= i < |Trimmed(s)| ==> (Sanitize(s)[i] == '.' <==> Trimmed(s)[i] == '.');
    assert Sanitize(s) == "." <==> |Sanitize(s)| == 1 && Sanitize(s)[0] == '.';
    assert Trimmed(s) == "." <==> |Trimmed(s)| == 1 && Trimmed(s)[0] == '.';
    assert Sanitize(s) == ".." <==> |Sanitize(s)| == 2 && Sanitize(s)[0] == '.' && Sanitize(s)[1] == '.';
    assert Trimmed(s) == ".." <==> |Trimmed(s)| == 2 && Trimmed(s)[0] == '.' && Trimmed(s)[1] == '.';
  }

  /** The 25 characters with the Unicode property White_Space. */
  lemma SpacesAre(c: char)
    ensures IsSpace(c) <==> c as int in {
      9, 10, 11, 12, 13, 0x20, 0x85, 0xA0, 0x1680, 0x2000, 0x2001, 0x2002, 0x2003, 0x2004, 0x2005, 0x2006,
      0x2007, 0x2008, 0x2009, 0x200A, 0x2028, 0x2029, 0x202F, 0x205F, 0x3000}
  {}

  predicate AllSpace(s: string) {
    forall i :: 0 <= i < |s| ==> IsSpace(s[i])
  }

  lemma {:induction false} TrimStartMeaning(s: string)
    ensures exists a :: AllSpace(a) && s == a + TrimStart(s)
    ensures TrimStart(s) != [] ==> !IsSpace(TrimStart(s)[0])
  {
    if s != [] && IsSpace(s[0]) {
      TrimStartMeaning(s[1..]);
      var a :| AllSpace(a) && s[1..] == a + TrimStart(s[1..]);
      assert AllSpace([s[0]] + a) && s == ([s[0]] + a) + TrimStart(s);
    } else {
      assert AllSpace([]) && s == [] + TrimStart(s);
    }
  }

  lemma {:induction false} TrimEndMeaning(s: string)
    ensures exists b :: AllSpace(b) && s == TrimEnd(s) + b
    ensures TrimEnd(s) != [] ==> !IsSpace(TrimEnd(s)[|TrimEnd(s)| - 1])
  {
    if s != [] && IsSpace(s[|s| - 1]) {
      var init := s[..|s| - 1];
      TrimEndMeaning(init);
      var b :| AllSpace(b) && init == TrimEnd(init) + b;
      assert AllSpace(b + [s[|s| - 1]]) && s == TrimEnd(s) + (b + [s[|s| - 1]]);
    } else {
      assert AllSpace([]) && s == TrimEnd(s) + [];
    }
  }

  /** A directory name is the segment without its outer white space, and with every reserved
      character replaced by an underscore. */
  lemma SanitizedIs(s: string)
    ensures exists a, b :: AllSpace(a) && AllSpace(b) && s == a + Trimmed(s) + b
    ensures Trimmed(s) != [] ==> !IsSpace(Trimmed(s)[0]) && !IsSpace(Trimmed(s)[|Trimmed(s)| - 1])
    ensures |Sanitize(s)| == |Trimmed(s)|
    ensures forall i :: 0 <= i < |Trimmed(s)| ==>
              Sanitize(s)[i] == if Trimmed(s)[i] in "\\/:*?\"<>|" then '_' else Trimmed(s)[i]
  {
    DotsStay(s);
    var t := TrimStart(s);
    TrimStartMeaning(s);
    TrimEndMeaning(t);
    var a :| AllSpace(a) && s == a + t;
    var b :| AllSpace(b) && t == TrimEnd(t) + b;
    assert s == a + Trimmed(s) + b;
    if Trimmed(s) != [] { assert t[0] == Trimmed(s)[0]; }
  }

  /** One byte holds 7 bits of a character, two hold 11, three hold 16, four hold the rest. */
  lemma Utf8LenIs(c: char)
    ensures Utf8Len(c) == 1 <==> (c as int) / 128 == 0
    ensures Utf8Len(c) <= 2 <==> (c as int) / 2048 == 0
    ensures Utf8Len(c) <= 3 <==> (c as int) / 65536 == 0
    ensures 1 <= Utf8Len(c) <= 4
  {}

  /** Bytes of a string in UTF-8. */
  function Utf8Size(s: string): nat {
    if s == [] then 0 else Utf8Size(s[..|s| - 1]) + Utf8Len(s[|s| - 1])
  }

  lemma {:induction false} PrefixSize(s: string, n: nat)
    requires n <= |s|
    ensures n == 0 ==> Utf8Size(s[..n]) == 0
    ensures n <= Utf8Size(s[..n]) && (n >= 1 ==> Utf8Size(s[..n]) >= Utf8Len(s[0]) + n - 1)
  {
    if n > 0 {
      PrefixSize(s, n - 1);
      assert s[..n][..n - 1] == s[..n - 1];
    }
  }

  /** The shard is the prefix of two bytes, or the whole name if no prefix has two. */
  lemma ShardIsTwoBytes(s: string)
    ensures Shard(s) <= s
    ensures Utf8Size(Shard(s)) == 2 || (Shard(s) == s && forall n :: 0 <= n <= |s| ==> Utf8Size(s[..n]) != 2)
  {
    if |s| >= 1 {
      assert s[..1][..0] == [] && Utf8Size(s[..1]) == Utf8Len(s[0]);
      if |s| >= 2 {
        assert s[..2][..1] == s[..1] && Utf8Size(s[..2]) == Utf8Len(s[0]) + Utf8Len(s[1]);
      }
    }
    forall n | 0 <= n <= |s| && Utf8Size(s[..n]) == 2 ensures Utf8Size(Shard(s)) == 2 {
      PrefixSize(s, n);
    }
  }

  lemma MessageIdEnds(account: string, folder: string, uid: u32)
    ensures var id := MessageKey(account, folder, uid).id;
            |id| >= 2 && id[0] == 'i' && id[1] == 'm' && id[|id| - 1] in DIGITS
  {
    var id, digits := MessageKey(account, folder, uid).id, Decimal(uid);
    assert id[|id| - 1] == digits[|digits| - 1];
  }

  lemma MessageIdTrimmed(account: string, folder: string, uid: u32)
    ensures Trimmed(MessageKey(account, folder, uid).id) == MessageKey(account, folder, uid).id
  {
    var id := MessageKey(account, folder, uid).id;
    MessageIdEnds(account, folder, uid);
    hide MessageId, MessageKey, Decimal;
    assert TrimStart(id) == id;
  }

  lemma ShardOfIm(s: string)
    requires |s| >= 2 && s[0] == 'i' && s[1] == 'm'
    ensures Shard(s) == "im"
  {
    assert s[..2] == ['i', 'm'];
  }

  /** All messages share one shard, as all their ids begin with "imap-". */
  lemma OneShardForAll(root: Path, account: string, folder: string, uid: u32)
    ensures MessageCacheDir(root, account, MessageKey(account, folder, uid).id)[|root| + 1] == "im"
  {
    var id := MessageKey(account, folder, uid).id;
    MessageIdEnds(account, folder, uid);
    MessageIdTrimmed(account, folder, uid);
    DotsStay(id);
    ShardOfIm(ReplaceReserved(id));
  }

  /** The directory of a message has none: its id begins with "imap-" and ends in a digit. */
  lemma MessageNamesHaveNoDots(account: string, folder: string, uid: u32)
    ensures var name := Sanitize(MessageKey(account, folder, uid).id);
            !DotFirst(name) && !DotLast(name)
  {
    MessageIdEnds(account, folder, uid);
    MessageIdTrimmed(account, folder, uid);
    DotsStay(MessageKey(account, folder, uid).id);
  }

  // ---- The file tree ----

  datatype Fs = Fs(files: set<Path>, dirs: set<Path>)

  class FileSystem {
    var files: set<Path>
    var dirs: set<Path>

    ghost function Snapshot(): Fs
      reads this
    {
      Fs(files, dirs)
    }
  }

  predicate Exists(fs: Fs, p: Path) {
    p in fs.files || p in fs.dirs
  }

  predicate InSome(p: Path, ds: set<Path>) {
    exists d :: d in ds && d <= p
  }

  /** The tree without these directories and everything under them. */
  function Remove(fs: Fs, gone: set<Path>): Fs {
    Fs(set p | p in fs.files && !InSome(p, gone), set p | p in fs.dirs && !InSome(p, gone))
  }

  /** A message directory `root/account/shard/message` as the walk meets it. */
  predicate IsMessageDir(fs: Fs, root: Path, d: Path) {
    && |d| == |root| + 3 && root <= d
    && root in fs.dirs && d[..|root| + 1] in fs.dirs && d[..|root| + 2] in fs.dirs && d in fs.dirs
  }

  /** The row the directory's raw names stand for. */
  function Owner(root: Path, d: Path): Key
    requires |d| == |root| + 3
  {
    Key(d[|root|], d[|root| + 2])
  }

  /** The message directories under `at` without a message row. */
  function Orphans(fs: Fs, root: Path, live: set<Key>, at: Path): set<Path> {
    set d | d in fs.dirs && IsMessageDir(fs, root, d) && at <= d && Owner(root, d) !in live
  }

  /** Regular files directly inside these directories. */
  function FilesIn(fs: Fs, ds: set<Path>): set<Path> {
    set p | p in fs.files && p != [] && p[..|p| - 1] in ds
  }

  // ---- Pass 1 ----

  /** The names `read_dir` lists, in any order. */
  function Names(fs: Fs, at: Path): (names: set<string>)
    ensures forall n :: at + [n] in fs.dirs ==> n in names
  {
    var paths := set p | p in fs.files + fs.dirs && |p| == |at| + 1 && at <= p;
    var names := set p | p in paths :: p[|at|];
    assert forall n :: at + [n] in fs.dirs ==> n in names by {
      forall n | at + [n] in fs.dirs ensures n in names {
        assert at + [n] in paths && (at + [n])[|at|] == n;
      }
    }
    names
  }

  /** The state of a walk: these orphans of the original tree are gone. */
  ghost predicate Walked(now: Fs, fs: Fs, root: Path, live: set<Key>, done: set<Path>) {
    now == Remove(fs, done) && done <= Orphans(fs, root, live, root)
  }

  /** Removing message directories hides no other path of the walk. */
  lemma StillThere(fs: Fs, root: Path, live: set<Key>, done: set<Path>, p: Path)
    requires done <= Orphans(fs, root, live, root)
    requires |p| <= |root| + 3
    ensures p in Remove(fs, done).dirs <==> p in fs.dirs && p !in done
  {
    if InSome(p, done) {
      var d :| d in done && d <= p;
      assert |d| == |root| + 3;
      assert d == p;
    }
  }

  lemma RemoveMore(fs: Fs, a: set<Path>, b: set<Path>)
    ensures Remove(Remove(fs, a), b) == Remove(fs, a + b)
  {
    forall p ensures InSome(p, a + b) <==> InSome(p, a) || InSome(p, b) {
      if InSome(p, a) { var d :| d in a && d <= p; assert d in a + b; }
      if InSome(p, b) { var d :| d in b && d <= p; assert d in a + b; }
    }
  }

  /** A path has one prefix of each length. */
  lemma OnePrefix(d: Path, p: Path)
    requires d <= p
    ensures forall e: Path :: e <= p && |e| == |d| ==> e == d
  {
    forall e: Path | e <= p && |e| == |d| ensures e == d {
      assert e == p[..|e|] && d == p[..|d|];
    }
  }

  /** The files of a directory that is not yet removed are all still there. */
  lemma FilesKept(fs: Fs, root: Path, live: set<Key>, done: set<Path>, d: Path)
    requires done <= Orphans(fs, root, live, root)
    requires |d| == |root| + 3 && d !in done
    ensures FilesIn(Remove(fs, done), {d}) == FilesIn(fs, {d})
  {
    forall p | p in FilesIn(fs, {d}) ensures !InSome(p, done) {
      OnePrefix(d, p);
    }
  }

  lemma FilesAdd(fs: Fs, done: set<Path>, d: Path)
    requires d !in done
    ensures |FilesIn(fs, done + {d})| == |FilesIn(fs, done)| + |FilesIn(fs, {d})|
  {
    assert FilesIn(fs, done + {d}) == FilesIn(fs, done) + FilesIn(fs, {d});
    assert FilesIn(fs, done) !! FilesIn(fs, {d});
  }

  method RemoveDirAll(fs: FileSystem, d: Path)
    modifies fs
    ensures fs.Snapshot() == Remove(old(fs.Snapshot()), {d})
  {
    fs.files := set p | p in fs.files && !(d <= p);
    fs.dirs := set p | p in fs.dirs && !(d <= p);
    ghost var one := {d};
    assert forall p: Path :: InSome(p, one) <==> d <= p by {
      forall p: Path ensures InSome(p, one) <==> d <= p {
        if d <= p { assert d in one; }
      }
    }
  }

  /** Counts the files directly inside, before the directory goes. */
  method CountFiles(fs: FileSystem, d: Path) returns (n: nat)
    ensures n == |FilesIn(fs.Snapshot(), {d})|
  {
    var found := set p | p in fs.files && p != [] && p[..|p| - 1] == d;
    assert found == FilesIn(fs.Snapshot(), {d});
    n := |found|;
  }

  /** One message directory: left alone if its row is alive, else removed. */
  method CheckMessage(fs: FileSystem, store: Store, root: Path, d: Path, ghost all: Fs, ghost done: set<Path>)
    returns (dirs: nat, files: nat, ghost after: set<Path>)
    requires Walked(fs.Snapshot(), all, root, store.messages.Keys, done)
    requires |d| == |root| + 3 && root <= d && root in all.dirs
    requires d[..|root| + 1] in all.dirs && d[..|root| + 2] in all.dirs
    modifies fs
    ensures Walked(fs.Snapshot(), all, root, store.messages.Keys, after)
    ensures after == if d in all.dirs && Owner(root, d) !in store.messages.Keys then done + {d} else done
    ensures dirs == |after| - |done| && files == |FilesIn(all, after)| - |FilesIn(all, done)|
  {
    StillThere(all, root, store.messages.Keys, done, d);
    after := done;
    if d !in fs.dirs || Key(d[|root|], d[|root| + 2]) in store.messages {
      assert d in done ==> done + {d} == done;
      return 0, 0, done;
    }
    files := CountFiles(fs, d);
    FilesKept(all, root, store.messages.Keys, done, d);
    FilesAdd(all, done, d);
    RemoveDirAll(fs, d);
    RemoveMore(all, done, {d});
    dirs := 1;
    after := done + {d};
  }

  /** The orphans under `at` whose next segment was already visited. */
  ghost function Visited(all: Fs, root: Path, live: set<Key>, at: Path, todo: set<string>): set<Path>
    requires |at| < |root| + 3
  {
    set d | d in Orphans(all, root, live, at) && d[|at|] !in todo
  }

  lemma VisitNext(all: Fs, root: Path, live: set<Key>, at: Path, todo: set<string>, n: string)
    requires |root| <= |at| < |root| + 3 && n in todo
    ensures Visited(all, root, live, at, todo - {n})
        == Visited(all, root, live, at, todo) + Orphans(all, root, live, at + [n])
  {
    forall d | d in Orphans(all, root, live, at) ensures at + [n] <= d <==> d[|at|] == n {
      assert at <= d;
    }
    forall d | d in Orphans(all, root, live, at + [n]) ensures d in Orphans(all, root, live, at) && d[|at|] == n {
      assert at <= at + [n] && (at + [n])[|at|] == n;
    }
  }

  /** Names that are not listed any more belong to directories already removed. */
  lemma VisitStart(now: Fs, all: Fs, root: Path, live: set<Key>, at: Path, done: set<Path>)
    requires Walked(now, all, root, live, done) && |root| <= |at| < |root| + 3
    ensures Visited(all, root, live, at, Names(now, at)) <= done
  {
    forall d | d in Visited(all, root, live, at, Names(now, at)) ensures d in done {
      var p := d[..|at| + 1];
      assert p == at + [d[|at|]];
      StillThere(all, root, live, done, p);
      assert d[..|root| + 3] == d && p == d[..|p|];
      assert |p| == |root| + 1 || |p| == |root| + 2 || |p| == |root| + 3;
      assert p in all.dirs;
      assert |p| < |root| + 3 ==> p !in done;
      assert |p| == |root| + 3 ==> p == d;
    }
  }

  /** Nothing to remove below a path that is no directory. */
  lemma NoDirNoOrphans(all: Fs, root: Path, live: set<Key>, at: Path)
    requires |root| < |at| < |root| + 3
    ensures Orphans(all, root, live, at) != {} ==> at in all.dirs
  {
    if Orphans(all, root, live, at) != {} {
      var d :| d in Orphans(all, root, live, at);
      assert at == d[..|at|];
      assert |at| == |root| + 1 || |at| == |root| + 2;
    }
  }

  predicate OnPath(all: Fs, root: Path, at: Path) {
    && root <= at && |at| < |root| + 3 && root in all.dirs
    && (|at| >= |root| + 1 ==> at[..|root| + 1] in all.dirs)
    && (|at| >= |root| + 2 ==> at[..|root| + 2] in all.dirs)
  }

  lemma OrphanAt(all: Fs, root: Path, live: set<Key>, d: Path)
    requires |d| == |root| + 3 && root <= d && OnPath(all, root, d[..|root| + 2])
    ensures Orphans(all, root, live, d) == if d in all.dirs && Owner(root, d) !in live then {d} else {}
  {
    forall e | e in Orphans(all, root, live, d) ensures e == d {}
    assert d[..|root| + 2][..|root| + 1] == d[..|root| + 1] && d[..|root| + 2][..|root| + 2] == d[..|root| + 2];
  }

  lemma AllVisited(all: Fs, root: Path, live: set<Key>, at: Path)
    requires |at| < |root| + 3
    ensures Visited(all, root, live, at, {}) == Orphans(all, root, live, at)
  {}

  /** One shard directory. */
  method WalkShard(fs: FileSystem, store: Store, root: Path, at: Path, ghost all: Fs, ghost done: set<Path>)
    returns (dirs: nat, files: nat, ghost after: set<Path>)
    requires Walked(fs.Snapshot(), all, root, store.messages.Keys, done)
    requires |at| == |root| + 2 && OnPath(all, root, at)
    modifies fs
    ensures Walked(fs.Snapshot(), all, root, store.messages.Keys, after)
    ensures after == done + Orphans(all, root, store.messages.Keys, at)
    ensures dirs == |after| - |done| && files == |FilesIn(all, after)| - |FilesIn(all, done)|
  {
    hide Walked, Visited, FilesIn, Orphans, IsMessageDir;
    ghost var live := store.messages.Keys;
    var todo := Names(Fs(fs.files, fs.dirs), at);
    VisitStart(fs.Snapshot(), all, root, live, at, done);
    dirs, files, after := 0, 0, done;
    while todo != {}
      invariant Walked(fs.Snapshot(), all, root, live, after)
      invariant after == done + Visited(all, root, live, at, todo)
      invariant dirs == |after| - |done| && files == |FilesIn(all, after)| - |FilesIn(all, done)|
      decreases |todo|
    {
      var n :| n in todo;
      VisitNext(all, root, live, at, todo, n);
      OrphanAt(all, root, live, at + [n]);
      assert (at + [n])[..|root| + 2] == at && (at + [n])[..|root| + 1] == at[..|root| + 1] && at[..|root| + 2] == at;
      assert root <= at + [n];
      var d, f;
      d, f, after := CheckMessage(fs, store, root, at + [n], all, after);
      dirs, files, todo := dirs + d, files + f, todo - {n};
    }
    AllVisited(all, root, live, at);
  }

  lemma ShortPathsStay(now: Fs, all: Fs, root: Path, live: set<Key>, done: set<Path>, p: Path)
    requires Walked(now, all, root, live, done) && |p| < |root| + 3
    ensures p in now.dirs <==> p in all.dirs
  {
    StillThere(all, root, live, done, p);
  }

  /** One account directory. */
  method WalkAccount(fs: FileSystem, store: Store, root: Path, at: Path, ghost all: Fs, ghost done: set<Path>)
    returns (dirs: nat, files: nat, ghost after: set<Path>)
    requires Walked(fs.Snapshot(), all, root, store.messages.Keys, done)
    requires |at| == |root| + 1 && OnPath(all, root, at)
    modifies fs
    ensures Walked(fs.Snapshot(), all, root, store.messages.Keys, after)
    ensures after == done + Orphans(all, root, store.messages.Keys, at)
    ensures dirs == |after| - |done| && files == |FilesIn(all, after)| - |FilesIn(all, done)|
  {
    hide Walked, Visited, FilesIn, Orphans, IsMessageDir, Remove;
    ghost var live := store.messages.Keys;
    var todo := Names(Fs(fs.files, fs.dirs), at);
    VisitStart(fs.Snapshot(), all, root, live, at, done);
    dirs, files, after := 0, 0, done;
    while todo != {}
      invariant Walked(fs.Snapshot(), all, root, live, after)
      invariant after == done + Visited(all, root, live, at, todo)
      invariant dirs == |after| - |done| && files == |FilesIn(all, after)| - |FilesIn(all, done)|
      decreases |todo|
    {
      var n :| n in todo;
      VisitNext(all, root, live, at, todo, n);
      var shard := at + [n];
      ShortPathsStay(fs.Snapshot(), all, root, live, after, shard);
      if shard in fs.dirs {
        assert shard[..|root| + 1] == at[..|root| + 1] && shard[..|root| + 2] == shard;
        var d, f;
        d, f, after := WalkShard(fs, store, root, shard, all, after);
        dirs, files := dirs + d, files + f;
      } else {
        NoDirNoOrphans(all, root, live, shard);
      }
      todo := todo - {n};
    }
    AllVisited(all, root, live, at);
  }

  /** The cache root. */
  method WalkRoot(fs: FileSystem, store: Store, root: Path, ghost all: Fs, ghost done: set<Path>)
    returns (dirs: nat, files: nat, ghost after: set<Path>)
    requires Walked(fs.Snapshot(), all, root, store.messages.Keys, done)
    requires OnPath(all, root, root)
    modifies fs
    ensures Walked(fs.Snapshot(), all, root, store.messages.Keys, after)
    ensures after == done + Orphans(all, root, store.messages.Keys, root)
    ensures dirs == |after| - |done| && files == |FilesIn(all, after)| - |FilesIn(all, done)|
  {
    hide Walked, Visited, FilesIn, Orphans, IsMessageDir, Remove;
    ghost var live := store.messages.Keys;
    var todo := Names(Fs(fs.files, fs.dirs), root);
    VisitStart(fs.Snapshot(), all, root, live, root, done);
    dirs, files, after := 0, 0, done;
    while todo != {}
      invariant Walked(fs.Snapshot(), all, root, live, after)
      invariant after == done + Visited(all, root, live, root, todo)
      invariant dirs == |after| - |done| && files == |FilesIn(all, after)| - |FilesIn(all, done)|
      decreases |todo|
    {
      var n :| n in todo;
      VisitNext(all, root, live, root, todo, n);
      var account := root + [n];
      ShortPathsStay(fs.Snapshot(), all, root, live, after, account);
      if account in fs.dirs {
        assert account[..|root| + 1] == account;
        var d, f;
        d, f, after := WalkAccount(fs, store, root, account, all, after);
        dirs, files := dirs + d, files + f;
      } else {
        NoDirNoOrphans(all, root, live, account);
      }
      todo := todo - {n};
    }
    AllVisited(all, root, live, root);
  }

  lemma NothingRemoved(all: Fs, root: Path, live: set<Key>)
    ensures Remove(all, {}) == all && FilesIn(all, {}) == {} && Walked(all, all, root, live, {})
    ensures root !in all.dirs ==> Orphans(all, root, live, root) == {}
  {
    assert forall p: Path :: !InSome(p, {});
    assert Remove(all, {}).files == all.files && Remove(all, {}).dirs == all.dirs;
  }

  /** Pass 1: walk root/account/shard/message and remove the orphans. */
  method WalkAndRemoveOrphans(fs: FileSystem, store: Store, root: Path) returns (dirs: nat, files: nat)
    modifies fs
    ensures var orphans := Orphans(old(fs.Snapshot()), root, store.messages.Keys, root);
            && fs.Snapshot() == Remove(old(fs.Snapshot()), orphans)
            && dirs == |orphans| && files == |FilesIn(old(fs.Snapshot()), orphans)|
  {
    NothingRemoved(fs.Snapshot(), root, store.messages.Keys);
    if root !in fs.dirs { return 0, 0; }
    ghost var after;
    dirs, files, after := WalkRoot(fs, store, root, fs.Snapshot(), {});
  }

  // ---- Pass 2 ----

  /** The cache columns of a row of `attachments`. */
  datatype Attachment = Attachment(localPath: Option<Path>, cachedAt: Option<int>, cacheSize: Option<int>)

  class AttachmentTable {
    var rows: map<string, Attachment>
  }

  /** The rows whose file is gone. */
  function StaleRows(rows: map<string, Attachment>, fs: Fs): set<string> {
    set id | id in rows && rows[id].localPath.Some? && !Exists(fs, rows[id].localPath.value)
  }

  function Cleared(rows: map<string, Attachment>, gone: set<string>): map<string, Attachment> {
    map id | id in rows :: if id in gone then Attachment(None, None, None) else rows[id]
  }

  lemma ClearMore(rows: map<string, Attachment>, a: set<string>, b: set<string>)
    ensures Cleared(Cleared(rows, a), b) == Cleared(rows, a + b)
  {}

  /** One UPDATE per listed path; it clears every row sharing the path at once. */
  method ClearStaleLocalPaths(table: AttachmentTable, fs: FileSystem) returns (cleared: nat)
    modifies table
    ensures table.rows == Cleared(old(table.rows), StaleRows(old(table.rows), fs.Snapshot()))
    ensures cleared == |StaleRows(old(table.rows), fs.Snapshot())|
  {
    ghost var rows := table.rows;
    ghost var stale := StaleRows(rows, fs.Snapshot());
    var listed := map id | id in table.rows && table.rows[id].localPath.Some? :: table.rows[id].localPath.value;
    var todo := listed.Keys;
    ghost var done: set<string> := {};
    cleared := 0;
    while todo != {}
      invariant todo <= listed.Keys
      invariant done <= stale
      invariant forall id :: id in stale && id !in todo ==> id in done
      invariant forall id, j :: id in done && j in stale && listed[id] == listed[j] ==> j in done
      invariant table.rows == Cleared(rows, done)
      invariant cleared == |done|
      decreases |todo|
    {
      var id :| id in todo;
      todo := todo - {id};
      if listed[id] in fs.files || listed[id] in fs.dirs { continue; }
      var hit := set j | j in table.rows && table.rows[j].localPath == Some(listed[id]);
      assert hit == set j | j in stale && j !in done && listed[j] == listed[id];
      ClearMore(rows, done, hit);
      table.rows := Cleared(table.rows, hit);
      cleared := cleared + |hit|;
      done := done + hit;
    }
    assert done == stale;
  }

  // ---- The whole reconciliation ----

  datatype ReconcileStats = ReconcileStats(orphanDirsRemoved: nat, orphanFilesRemoved: nat, stalePathsCleared: nat)

  datatype Cache = Cache(fs: Fs, rows: map<string, Attachment>)

  function Reconciled(c: Cache, root: Path, live: set<Key>): Cache {
    var fs := Remove(c.fs, Orphans(c.fs, root, live, root));
    Cache(fs, Cleared(c.rows, StaleRows(c.rows, fs)))
  }

  function StatsOf(c: Cache, root: Path, live: set<Key>): ReconcileStats {
    var orphans := Orphans(c.fs, root, live, root);
    ReconcileStats(|orphans|, |FilesIn(c.fs, orphans)|, |StaleRows(c.rows, Remove(c.fs, orphans))|)
  }

  method ReconcileCache(fs: FileSystem, table: AttachmentTable, store: Store, root: Path)
    returns (stats: ReconcileStats)
    modifies fs, table
    ensures var c := Cache(old(fs.Snapshot()), old(table.rows));
            && Cache(fs.Snapshot(), table.rows) == Reconciled(c, root, store.messages.Keys)
            && stats == StatsOf(c, root, store.messages.Keys)
  {
    var dirs, files := 0, 0;
    NothingRemoved(fs.Snapshot(), root, store.messages.Keys);
    if root in fs.files || root in fs.dirs {
      dirs, files := WalkAndRemoveOrphans(fs, store, root);
    }
    var cleared := ClearStaleLocalPaths(table, fs);
    stats := ReconcileStats(dirs, files, cleared);
  }

  /** After a reconciliation every message directory names a live message and every
      path kept in the table exists. */
  lemma ReconciledIsClean(c: Cache, root: Path, live: set<Key>)
    ensures var r := Reconciled(c, root, live);
            && (forall d :: d in r.fs.dirs && IsMessageDir(r.fs, root, d) ==> Owner(root, d) in live)
            && (forall id :: id in r.rows && r.rows[id].localPath.Some? ==> Exists(r.fs, r.rows[id].localPath.value))
  {
    var r := Reconciled(c, root, live);
    var orphans := Orphans(c.fs, root, live, root);
    forall d | d in r.fs.dirs && IsMessageDir(r.fs, root, d) ensures Owner(root, d) in live {
      assert !InSome(d, orphans) && d <= d;
      assert IsMessageDir(c.fs, root, d) && d !in orphans;
    }
  }

  /** Row by row: a missing file clears all three cache columns, and other rows stay. */
  lemma ReconciledRows(c: Cache, root: Path, live: set<Key>, id: string)
    requires id in c.rows
    ensures id in Reconciled(c, root, live).rows
    ensures var r, row := Reconciled(c, root, live), c.rows[id];
            var missing := row.localPath.Some? && row.localPath.value !in r.fs.files + r.fs.dirs;
            r.rows[id] == if missing then Attachment(None, None, None) else row
  {}

  /** A second run changes nothing and reports zeros. */
  lemma ReconcileFixedPoint(c: Cache, root: Path, live: set<Key>)
    ensures var r := Reconciled(c, root, live);
            Reconciled(r, root, live) == r && StatsOf(r, root, live) == ReconcileStats(0, 0, 0)
  {
    var r := Reconciled(c, root, live);
    ReconciledIsClean(c, root, live);
    assert Orphans(r.fs, root, live, root) == {};
    NothingRemoved(r.fs, root, live);
    assert StaleRows(r.rows, r.fs) == {};
    assert Cleared(r.rows, {}) == r.rows;
  }

  /** A path stays exactly when it lies in no orphan directory; so the contents of a
      directory whose raw names spell a live message are untouched. */
  lemma LiveDirUntouched(c: Cache, root: Path, live: set<Key>, d: Path, p: Path)
    requires |d| == |root| + 3 && root <= d && d <= p && Owner(root, d) in live
    ensures p in Reconciled(c, root, live).fs.files <==> p in c.fs.files
    ensures p in Reconciled(c, root, live).fs.dirs <==> p in c.fs.dirs
  {
    OnePrefix(d, p);
    assert !InSome(p, Orphans(c.fs, root, live, root));
  }

  /** The directory of a message survives exactly when its sanitized names are a row. */
  lemma CacheDirKept(c: Cache, root: Path, live: set<Key>, account: string, message: string)
    requires IsMessageDir(c.fs, root, MessageCacheDir(root, account, message))
    ensures MessageCacheDir(root, account, message) in Reconciled(c, root, live).fs.dirs
       <==> Key(Sanitize(account), Sanitize(message)) in live
  {
    var d := MessageCacheDir(root, account, message);
    if Key(Sanitize(account), Sanitize(message)) in live {
      LiveDirUntouched(c, root, live, d, d);
    } else {
      assert d in Orphans(c.fs, root, live, root);
      assert InSome(d, Orphans(c.fs, root, live, root));
    }
  }

  /** Live messages with clean ids keep their whole directory. */
  lemma CleanIdsKeepCache(c: Cache, root: Path, live: set<Key>, account: string, message: string, p: Path)
    requires Clean(account) && Clean(message) && Key(account, message) in live
    requires MessageCacheDir(root, account, message) <= p
    ensures p in Reconciled(c, root, live).fs.files <==> p in c.fs.files
    ensures p in Reconciled(c, root, live).fs.dirs <==> p in c.fs.dirs
  {
    CleanIsSanitized(account);
    CleanIsSanitized(message);
    LiveDirUntouched(c, root, live, MessageCacheDir(root, account, message), p);
  }

  /** A live message in a nested folder such as A/B loses its cache: the directory name
      has the slash replaced and is compared with the raw id. */
  lemma NestedFolderLosesCache(root: Path, account: string, folder: string, uid: u32)
    requires |account| == ACCOUNT_ID_LEN && '/' in folder
    ensures var key := MessageKey(account, folder, uid);
            var d := MessageCacheDir(root, account, key.id);
            var fs := Fs({}, {root, d[..|root| + 1], d[..|root| + 2], d});
            d !in Reconciled(Cache(fs, map[]), root, {key}).fs.dirs
  {
    var key := MessageKey(account, folder, uid);
    var d := MessageCacheDir(root, account, key.id);
    var fs := Fs({}, {root, d[..|root| + 1], d[..|root| + 2], d});
    SanitizedIsSafe(key.id);
    assert '/' in key.id && Reserved('/');
    CacheDirKept(Cache(fs, map[]), root, {key}, account, key.id);
  }
}
