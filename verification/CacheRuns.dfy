/** What the artifact cache keeps over whole runs, and what its eviction amounts to
    (src/ldfd/download/cache.go). */
module CacheRuns {
  import opened CachePaths
  import opened ArtifactCache
  import opened Wrappers

  // ---------- eviction is the shortest LRU prefix ----------

  ghost predicate DistinctTimes(rows: seq<Entry>) {
    forall i, j | 0 <= i < j < |rows| :: rows[i].lastUsed != rows[j].lastUsed
  }

  /** All rows, least recently used first. */
  ghost predicate LruOrder(rows: seq<Entry>, order: seq<Entry>) {
    LruPrefix(rows, order) && |order| == |rows|
  }

  lemma SameLru(rows: seq<Entry>, part: seq<Entry>, a: Entry, b: Entry)
    requires DistinctTimes(rows) && (forall e | e in part :: e in rows)
    requires IsLru(part, a) && IsLru(part, b)
    ensures a == b
  {
    assert a.lastUsed == b.lastUsed;
  }

  lemma {:induction false} LeftSize(rows: seq<Entry>, order: seq<Entry>, k: nat)
    requires DistinctIds(rows) && LruPrefix(rows, order) && k <= |order|
    ensures |Left(rows, order[..k])| == |rows| - k
  {
    if k == 0 {
      LeftNothing(rows);
    } else {
      LeftSize(rows, order, k - 1);
      NextOfBatch(rows, order, k - 1);
      WithoutDistinct(rows, Ids(order[..k - 1]));
      WithoutOne(Left(rows, order[..k - 1]), order[k - 1]);
    }
  }

  lemma NextAgrees(rows: seq<Entry>, order: seq<Entry>, removed: seq<Entry>, maxBytes: int, k: nat)
    requires DistinctIds(rows) && DistinctTimes(rows) && LruOrder(rows, order)
    requires RemovedInTurn(rows, removed, maxBytes) && k < |removed|
    requires k <= |order| && removed[..k] == order[..k]
    ensures k < |order| && removed[k] == order[k]
  {
    var part := Left(rows, removed[..k]);
    assert IsLru(part, removed[k]);
    LeftSize(rows, order, k);
    forall e | e in part
      ensures e in rows
    {
      WithoutMembers(rows, Ids(removed[..k]), e);
    }
    LruOfRest(rows, order, k);
    SameLru(rows, part, removed[k], order[k]);
  }

  lemma TakeNext(a: seq<Entry>, b: seq<Entry>, k: nat)
    requires k < |a| && k < |b| && a[..k] == b[..k] && a[k] == b[k]
    ensures a[..k + 1] == b[..k + 1]
  {
    assert a[..k + 1] == a[..k] + [a[k]] && b[..k + 1] == b[..k] + [b[k]];
  }

  /** A list that agrees with another wherever it agreed before is a prefix of it. */
  lemma {:induction false} Follows(a: seq<Entry>, b: seq<Entry>, k: nat)
    requires k <= |a|
    requires forall j | 0 <= j < k && j <= |b| && a[..j] == b[..j] :: j < |b| && a[j] == b[j]
    ensures k <= |b| && a[..k] == b[..k]
  {
    if k == 0 {
    } else {
      Follows(a, b, k - 1);
      TakeNext(a, b, k - 1);
    }
  }

  /** An eviction follows the least-recently-used order. */
  lemma RemovedAgrees(rows: seq<Entry>, order: seq<Entry>, removed: seq<Entry>, maxBytes: int, k: nat)
    requires DistinctIds(rows) && DistinctTimes(rows) && LruOrder(rows, order)
    requires RemovedInTurn(rows, removed, maxBytes) && k <= |removed|
    ensures k <= |order| && removed[..k] == order[..k]
  {
    forall j | 0 <= j < k && j <= |order| && removed[..j] == order[..j]
      ensures j < |order| && removed[j] == order[j]
    {
      NextAgrees(rows, order, removed, maxBytes, j);
    }
    Follows(removed, order, k);
  }

  lemma {:induction false} LeastExists(rows: seq<Entry>) returns (e: Entry)
    requires rows != []
    ensures IsLru(rows, e)
  {
    e := rows[0];
    if |rows| <= 1 {
    } else {
      assert rows == [rows[0]] + rows[1..];
      var f := LeastExists(rows[1..]);
      if f.lastUsed < e.lastUsed {
        e := f;
      }
    }
  }

  /** Any beginning of the order of last use can be continued to all of it. */
  lemma {:induction false} Continued(rows: seq<Entry>, list: seq<Entry>) returns (order: seq<Entry>)
    requires DistinctIds(rows) && LruPrefix(rows, list)
    ensures LruOrder(rows, order) && list <= order
    decreases |Left(rows, list)|
  {
    LeftSize(rows, list, |list|);
    assert list[..|list|] == list;
    var rest := Left(rows, list);
    if rest == [] {
      order := list;
    } else {
      var next := LeastExists(rest);
      Extend(rows, list, rest, next);
      order := Continued(rows, list + [next]);
    }
  }

  lemma NothingIsPrefix(rows: seq<Entry>)
    ensures LruPrefix(rows, [])
  {
  }

  lemma AllButLast(rows: seq<Entry>, removed: seq<Entry>, maxBytes: int) returns (before: seq<Entry>, last: Entry)
    requires RemovedInTurn(rows, removed, maxBytes) && removed != []
    ensures removed == before + [last]
    ensures RemovedInTurn(rows, before, maxBytes) && IsLru(Left(rows, before), last)
  {
    var n := |removed| - 1;
    before, last := removed[..n], removed[n];
    forall k | 0 <= k < n
      ensures Total(Left(rows, before[..k])) > maxBytes && IsLru(Left(rows, before[..k]), before[k])
    {
      assert before[..k] == removed[..k];
    }
  }

  lemma {:induction false} RemovedIsPrefix(rows: seq<Entry>, removed: seq<Entry>, maxBytes: int)
    requires RemovedInTurn(rows, removed, maxBytes)
    ensures LruPrefix(rows, removed)
    decreases |removed|
  {
    if removed == [] {
      NothingIsPrefix(rows);
    } else {
      var before, last := AllButLast(rows, removed, maxBytes);
      RemovedIsPrefix(rows, before, maxBytes);
      LruPrefixSnoc(rows, before, last);
    }
  }

  /** The entries begin some order of last use of all rows; without them the total is small enough,
      and without fewer of them it is not. */
  ghost predicate ShortestLruPrefix(rows: seq<Entry>, removed: seq<Entry>, maxBytes: int) {
    && (exists order :: LruOrder(rows, order) && removed <= order)
    && Total(Left(rows, removed)) <= maxBytes
    && forall k | 0 <= k < |removed| :: Total(Left(rows, removed[..k])) > maxBytes
  }

  /** An eviction removes exactly a shortest prefix of the least-recently-used order whose removal brings
      the total down to the limit; entries last used at the same time may come in any order. */
  lemma EvictsShortestPrefix(rows: seq<Entry>, removed: seq<Entry>, maxBytes: int)
    requires DistinctIds(rows) && maxBytes >= 0
    ensures Evicts(rows, removed, maxBytes) <==> ShortestLruPrefix(rows, removed, maxBytes)
  {
    if Evicts(rows, removed, maxBytes) {
      RemovedIsPrefix(rows, removed, maxBytes);
      var order := Continued(rows, removed);
    }
    if ShortestLruPrefix(rows, removed, maxBytes) {
      var order :| LruOrder(rows, order) && removed <= order;
      forall k | 0 <= k < |removed|
        ensures IsLru(Left(rows, removed[..k]), removed[k])
      {
        LruOfRest(rows, order, k);
        assert order[..k] == removed[..k];
      }
    }
  }

  lemma PrefixOfPrefix(order: seq<Entry>, a: seq<Entry>, b: seq<Entry>)
    requires a <= order && b <= order && |a| <= |b|
    ensures a == b[..|a|]
  {
  }

  lemma NotLonger(rows: seq<Entry>, order: seq<Entry>, a: seq<Entry>, b: seq<Entry>, maxBytes: int)
    requires a <= order && b <= order
    requires Total(Left(rows, a)) <= maxBytes
    requires forall k | 0 <= k < |b| :: Total(Left(rows, b[..k])) > maxBytes
    ensures |b| <= |a|
  {
    if |a| < |b| {
      PrefixOfPrefix(order, a, b);
    }
  }

  /** With distinct times of last use there is only one outcome: the batches of five make no difference. */
  lemma EvictionIsDetermined(rows: seq<Entry>, a: seq<Entry>, b: seq<Entry>, maxBytes: int)
    requires DistinctIds(rows) && DistinctTimes(rows) && maxBytes >= 0
    requires Evicts(rows, a, maxBytes) && Evicts(rows, b, maxBytes)
    ensures a == b
  {
    EvictsShortestPrefix(rows, a, maxBytes);
    EvictsShortestPrefix(rows, b, maxBytes);
    var order :| LruOrder(rows, order) && a <= order;
    RemovedAgrees(rows, order, b, maxBytes, |b|);
    assert b[..|b|] == b;
    NotLonger(rows, order, a, b, maxBytes);
    NotLonger(rows, order, b, a, maxBytes);
  }

  // ---------- what is used stays longest ----------

  /** Every other row was last used before. */
  ghost predicate LatestUsed(rows: seq<Entry>, e: Entry) {
    e in rows && forall r | r in rows && r != e :: r.lastUsed < e.lastUsed
  }

  lemma RemovedWereRows(rows: seq<Entry>, removed: seq<Entry>, maxBytes: int, r: Entry)
    requires maxBytes <= 0 ==> removed == []
    requires maxBytes > 0 ==> Evicts(rows, removed, maxBytes)
    requires r in removed
    ensures r in rows && r.id in Ids(removed)
  {
    var k :| 0 <= k < |removed| && removed[k] == r;
    WithoutMembers(rows, Ids(removed[..k]), removed[k]);
  }

  /** When the latest entry is least recently used among what is left, it is all that is left. */
  lemma NothingElseLeft(rows: seq<Entry>, gone: seq<Entry>, e: Entry, r: Entry)
    requires DistinctIds(rows) && LatestUsed(rows, e) && IsLru(Left(rows, gone), e)
    requires r in rows && r != e && forall g | g in gone :: g in rows
    ensures r in gone
  {
    WithoutMembers(rows, Ids(gone), r);
    if r.id in Ids(gone) {
      var g :| g in gone && g.id == r.id;
      SameId(rows, g, r);
    }
  }

  lemma TakenWhenLru(rows: seq<Entry>, removed: seq<Entry>, maxBytes: int, e: Entry) returns (k: nat)
    requires Evicts(rows, removed, maxBytes) && e in removed
    ensures k < |removed| && removed[k] == e && IsLru(Left(rows, removed[..k]), e)
  {
    k :| 0 <= k < |removed| && removed[k] == e;
  }

  lemma AllWereRows(rows: seq<Entry>, removed: seq<Entry>, maxBytes: int)
    requires maxBytes > 0 && Evicts(rows, removed, maxBytes)
    ensures forall g | g in removed :: g in rows
  {
    forall g | g in removed
      ensures g in rows
    {
      RemovedWereRows(rows, removed, maxBytes, g);
    }
  }

  lemma OthersGone(rows: seq<Entry>, removed: seq<Entry>, k: nat, e: Entry)
    requires DistinctIds(rows) && LatestUsed(rows, e) && (forall g | g in removed :: g in rows)
    requires k < |removed| && removed[k] == e && IsLru(Left(rows, removed[..k]), e)
    ensures forall r | r in rows :: r in removed
  {
    forall r | r in rows && r != e
      ensures r in removed
    {
      NothingElseLeft(rows, removed[..k], e, r);
    }
  }

  /** The entry used last is evicted last. */
  lemma LatestGoesLast(rows: seq<Entry>, removed: seq<Entry>, maxBytes: int, e: Entry)
    requires maxBytes > 0 && DistinctIds(rows) && Evicts(rows, removed, maxBytes)
    requires LatestUsed(rows, e) && e in removed
    ensures forall r | r in rows :: r in removed
  {
    AllWereRows(rows, removed, maxBytes);
    var k := TakenWhenLru(rows, removed, maxBytes, e);
    OthersGone(rows, removed, k, e);
  }

  lemma UsedIsLatest(before: seq<Entry>, after: seq<Entry>, sourceID: string, version: string, now: int, e: Entry)
    requires DistinctIds(before) && DistinctKeys(before) && UsedAt(before, after, sourceID, version, now)
    requires forall r | r in before && !HasKey(r, sourceID, version) :: r.lastUsed < now
    requires e in after && HasKey(e, sourceID, version)
    ensures DistinctIds(after) && LatestUsed(after, e)
  {
    var i :| 0 <= i < |before| && HasKey(before[i], sourceID, version) && after[i].lastUsed == now
             && after[i] == before[i].(lastUsed := after[i].lastUsed, useCount := after[i].useCount)
             && forall j | 0 <= j < |before| && j != i :: after[j] == before[j];
    var k :| 0 <= k < |after| && after[k] == e;
    assert k == i;
    forall r | r in after && r != e
      ensures r.lastUsed < e.lastUsed
    {
      var j :| 0 <= j < |after| && after[j] == r;
      assert before[j] == r;
      assert !HasKey(before[j], sourceID, version);
    }
  }

  /** So an entry that was just looked up, or stored again, outlives all others. */
  lemma UsedGoesLast(
    before: seq<Entry>, after: seq<Entry>, sourceID: string, version: string, now: int,
    removed: seq<Entry>, maxBytes: int, e: Entry)
    requires maxBytes > 0 && DistinctIds(before) && DistinctKeys(before)
    requires UsedAt(before, after, sourceID, version, now)
    requires forall r | r in before && !HasKey(r, sourceID, version) :: r.lastUsed < now
    requires Evicts(after, removed, maxBytes) && e in removed && HasKey(e, sourceID, version)
    ensures forall r | r in after :: r in removed
  {
    AllWereRows(after, removed, maxBytes);
    UsedIsLatest(before, after, sourceID, version, now, e);
    LatestGoesLast(after, removed, maxBytes, e);
  }

  /** What a store of a new key leaves in the table, if anything: the artifact, used once, just now. */
  lemma StoredIsFresh(s: State, s': State, a: Artifact, now: int, maxBytes: int, removed: seq<Entry>, e: Entry)
    requires StoreStep(s, s', a, now, maxBytes, removed) && !Known(s.rows, a.sourceID, a.version)
    requires e in s'.rows && HasKey(e, a.sourceID, a.version)
    ensures e.id == s.nextId && e.lastUsed == now && e.useCount == 1
    ensures e.sizeBytes == a.size && e.checksum == a.checksum && e.contentType == a.contentType
    ensures e.resolvedURL == a.path && a.path in s.objects
  {
    KnownIsFound(s.rows, a.sourceID, a.version);
    if a.path in s.objects {
      WithoutMembers(Stored(s, a, now).rows, Ids(removed), e);
    }
  }

  /** A new entry, too, is the last to go, when the others were used before. */
  lemma NewGoesLast(s: State, s': State, a: Artifact, now: int, maxBytes: int, removed: seq<Entry>, e: Entry)
    requires DistinctIds(s.rows) && maxBytes > 0 && StoreStep(s, s', a, now, maxBytes, removed)
    requires !Known(s.rows, a.sourceID, a.version) && a.path in s.objects
    requires forall r | r in s.rows :: r.lastUsed < now && r.id < s.nextId
    requires e in removed && HasKey(e, a.sourceID, a.version)
    ensures s'.rows == []
  {
    KnownIsFound(s.rows, a.sourceID, a.version);
    var full := Stored(s, a, now).rows;
    RemovedWereRows(full, removed, maxBytes, e);
    LatestGoesLast(full, removed, maxBytes, e);
    if s'.rows != [] {
      WithoutMembers(full, Ids(removed), s'.rows[0]);
    }
  }

  // ---------- invariants ----------

  /** At most one row per id and per key, each with the path of its key. */
  ghost predicate Consistent(s: State) {
    && DistinctIds(s.rows) && DistinctKeys(s.rows)
    && forall e | e in s.rows :: Clean(e) && e.id < s.nextId
  }

  /** Every row has its object in storage, except where an object was lost. */
  ghost predicate Backed(s: State, lost: set<string>) {
    forall e | e in s.rows :: e.cachePath in s.objects || e.cachePath in lost
  }

  /** What can happen to the cache: its own operations, uploads elsewhere in storage, and loss of objects. */
  datatype Action =
    | DoStore(a: Artifact, storedAt: int, removed: seq<Entry>)
    | DoLookup(sourceID: string, version: string, lookedAt: int, found: Option<Entry>)
    | Upload(path: string, content: string)
    | Lose(path: string)

  /** Callers store under slash-free source ids and named artifacts, and upload outside the cache. */
  predicate Proper(action: Action) {
    match action
    case DoStore(a, _, _) => NoSlash(a.sourceID) && Named(a.version, a.path)
    case Upload(path, _) => !(ROOT <= path)
    case _ => true
  }

  ghost predicate Step(s: State, action: Action, s': State, maxBytes: int) {
    match action
    case DoStore(a, now, removed) => StoreStep(s, s', a, now, maxBytes, removed)
    case DoLookup(sourceID, version, now, found) => LookupStep(s, s', sourceID, version, now, found)
    case Upload(path, content) => s' == s.(objects := s.objects[path := content])
    case Lose(path) => s' == s.(objects := s.objects - {path})
  }

  function LostBy(action: Action): set<string> {
    if action.Lose? then {action.path} else {}
  }

  /** The path under which a store puts a new object, if it does. */
  function FilledBy(s: State, action: Action): set<string> {
    if action.DoStore? && action.a.path in s.objects && Find(s.rows, action.a.sourceID, action.a.version) == |s.rows|
    then {NewEntry(action.a, s.nextId, action.storedAt).cachePath}
    else {}
  }

  lemma CleanRowsDisjoint(rows: seq<Entry>, e: Entry, f: Entry)
    requires DistinctKeys(rows) && e in rows && f in rows && Clean(e) && Clean(f)
    ensures e.cachePath == f.cachePath ==> e == f
  {
    if e.cachePath == f.cachePath {
      CachePathInjective(e.sourceID, e.version, e.resolvedURL, f.sourceID, f.version, f.resolvedURL);
    }
  }

  lemma UnderRoot(e: Entry)
    requires Clean(e)
    ensures ROOT <= e.cachePath
  {
    PathShape(e.sourceID, e.version, e.resolvedURL);
  }

  lemma TouchedMembers(rows: seq<Entry>, id: nat, now: int, e: Entry)
    requires e in Touched(rows, id, now)
    ensures exists f :: f in rows && (e == f || e == Touch(f, now))
  {
    var i :| 0 <= i < |rows| && Touched(rows, id, now)[i] == e;
    assert rows[i] in rows;
  }

  lemma TouchKeeps(s: State, id: nat, now: int, lost: set<string>)
    requires Consistent(s)
    ensures Consistent(s.(rows := Touched(s.rows, id, now)))
    ensures Backed(s, lost) ==> Backed(s.(rows := Touched(s.rows, id, now)), lost)
  {
    forall e | e in Touched(s.rows, id, now)
      ensures Clean(e) && e.id < s.nextId
      ensures Backed(s, lost) ==> e.cachePath in s.objects || e.cachePath in lost
    {
      TouchedMembers(s.rows, id, now, e);
      var f :| f in s.rows && (e == f || e == Touch(f, now));
    }
  }

  lemma WithoutKeeps(s: State, ids: set<nat>, lost: set<string>)
    requires Consistent(s)
    ensures Consistent(s.(rows := Without(s.rows, ids)))
    ensures Backed(s, lost) ==> Backed(s.(rows := Without(s.rows, ids)), lost)
  {
    WithoutDistinct(s.rows, ids);
    forall e | e in Without(s.rows, ids)
      ensures e in s.rows
    {
      WithoutMembers(s.rows, ids, e);
    }
  }

  lemma NewKey(rows: seq<Entry>, e: Entry)
    requires DistinctIds(rows) && DistinctKeys(rows)
    requires Find(rows, e.sourceID, e.version) == |rows| && forall f | f in rows :: f.id < e.id
    ensures DistinctIds(rows + [e]) && DistinctKeys(rows + [e])
  {
  }

  /** Creating an entry overwrites no other entry's object. */
  lemma NewPath(s: State, a: Artifact, now: int)
    requires Consistent(s) && Find(s.rows, a.sourceID, a.version) == |s.rows|
    requires NoSlash(a.sourceID) && Named(a.version, a.path)
    ensures forall e | e in s.rows :: e.cachePath != NewEntry(a, s.nextId, now).cachePath
  {
    forall f | f in s.rows
      ensures f.cachePath != NewEntry(a, s.nextId, now).cachePath
    {
      if f.cachePath == NewEntry(a, s.nextId, now).cachePath {
        CachePathInjective(f.sourceID, f.version, f.resolvedURL, a.sourceID, a.version, a.path);
      }
    }
  }

  lemma StoredKeeps(s: State, a: Artifact, now: int, lost: set<string>)
    requires Consistent(s) && a.path in s.objects
    requires Find(s.rows, a.sourceID, a.version) == |s.rows|
    requires NoSlash(a.sourceID) && Named(a.version, a.path)
    ensures Consistent(Stored(s, a, now))
    ensures Backed(s, lost) ==> Backed(Stored(s, a, now), lost - {NewEntry(a, s.nextId, now).cachePath})
    ensures forall e | e in s.rows :: e.cachePath != NewEntry(a, s.nextId, now).cachePath
  {
    NewPath(s, a, now);
    NewKey(s.rows, NewEntry(a, s.nextId, now));
  }

  /** Deleting the evicted entries' objects takes no survivor's object away. */
  lemma EvictionKeeps(s: State, s': State, removed: seq<Entry>, maxBytes: int, lost: set<string>)
    requires Consistent(s) && EvictionStep(s, s', maxBytes, removed)
    ensures Consistent(s')
    ensures Backed(s, lost) ==> Backed(s', lost)
    ensures forall e | e in s'.rows :: e in s.rows && e.cachePath !in Paths(removed)
  {
    WithoutKeeps(s, Ids(removed), lost);
    forall e | e in s'.rows
      ensures e in s.rows && e.cachePath !in Paths(removed)
    {
      WithoutMembers(s.rows, Ids(removed), e);
      if e.cachePath in Paths(removed) {
        var r :| r in removed && r.cachePath == e.cachePath;
        RemovedWereRows(s.rows, removed, maxBytes, r);
        CleanRowsDisjoint(s.rows, e, r);
      }
    }
  }

  /** An entry that is new in the table has the artifact's content under its path. */
  lemma StoredContent(s: State, s': State, a: Artifact, now: int, maxBytes: int, removed: seq<Entry>, e: Entry)
    requires Consistent(s) && StoreStep(s, s', a, now, maxBytes, removed)
    requires NoSlash(a.sourceID) && Named(a.version, a.path) && !Known(s.rows, a.sourceID, a.version)
    requires e in s'.rows && HasKey(e, a.sourceID, a.version)
    ensures a.path in s.objects && e.cachePath in s'.objects && s'.objects[e.cachePath] == s.objects[a.path]
  {
    KnownIsFound(s.rows, a.sourceID, a.version);
    StoredIsFresh(s, s', a, now, maxBytes, removed, e);
    StoredKeeps(s, a, now, {});
    EvictionKeeps(Stored(s, a, now), s', removed, maxBytes, {});
  }

  lemma StoreKeeps(s: State, s': State, a: Artifact, now: int, maxBytes: int, removed: seq<Entry>, lost: set<string>)
    requires Consistent(s) && StoreStep(s, s', a, now, maxBytes, removed)
    requires NoSlash(a.sourceID) && Named(a.version, a.path)
    ensures Consistent(s')
    ensures Backed(s, lost) ==> Backed(s', lost - FilledBy(s, DoStore(a, now, removed)))
  {
    var i := Find(s.rows, a.sourceID, a.version);
    if i < |s.rows| {
      TouchKeeps(s, s.rows[i].id, now, lost);
    } else if a.path in s.objects {
      var still := lost - FilledBy(s, DoStore(a, now, removed));
      StoredKeeps(s, a, now, lost);
      EvictionKeeps(Stored(s, a, now), s', removed, maxBytes, still);
    }
  }

  lemma LookupKeeps(
    s: State, s': State, sourceID: string, version: string, now: int, found: Option<Entry>, lost: set<string>)
    requires Consistent(s) && LookupStep(s, s', sourceID, version, now, found)
    ensures Consistent(s') && (Backed(s, lost) ==> Backed(s', lost))
  {
    var i := Find(s.rows, sourceID, version);
    if i < |s.rows| {
      TouchKeeps(s, s.rows[i].id, now, lost);
      WithoutKeeps(s, {s.rows[i].id}, lost);
    }
  }

  lemma UploadKeeps(s: State, path: string, content: string, lost: set<string>)
    requires Consistent(s)
    ensures var s' := s.(objects := s.objects[path := content]);
            Consistent(s') && (Backed(s, lost) ==> Backed(s', lost))
  {
  }

  /** Every proper step keeps the index consistent and every entry backed, up to what was lost
      and has not been stored anew. */
  lemma StepKeeps(s: State, action: Action, s': State, maxBytes: int, lost: set<string>)
    requires Consistent(s) && Backed(s, lost) && Proper(action) && Step(s, action, s', maxBytes)
    ensures Consistent(s') && Backed(s', lost + LostBy(action) - FilledBy(s, action))
  {
    match action
    case DoStore(a, now, removed) =>
      StoreKeeps(s, s', a, now, maxBytes, removed, lost);
    case DoLookup(sourceID, version, now, found) =>
      LookupKeeps(s, s', sourceID, version, now, found, lost);
    case Upload(path, content) =>
      UploadKeeps(s, path, content, lost);
    case Lose(path) =>
  }

  lemma SameRow(rows: seq<Entry>, e: Entry, f: Entry)
    requires DistinctIds(rows) && e in rows && e.id == f.id
    ensures f in rows ==> e == f
  {
  }

  lemma TouchedSame(rows: seq<Entry>, id: nat, now: int, e: Entry, f: Entry)
    requires DistinctIds(rows) && e in rows && f in Touched(rows, id, now) && e.id == f.id
    ensures f.cachePath == e.cachePath
  {
    TouchedMembers(rows, id, now, f);
    var g :| g in rows && (f == g || f == Touch(g, now));
    SameRow(rows, e, g);
  }

  lemma StoreKeepsContents(
    s: State, s': State, a: Artifact, now: int, maxBytes: int, removed: seq<Entry>, e: Entry, e': Entry)
    requires Consistent(s) && StoreStep(s, s', a, now, maxBytes, removed)
    requires NoSlash(a.sourceID) && Named(a.version, a.path)
    requires e in s.rows && e' in s'.rows && e'.id == e.id && e.cachePath in s.objects
    ensures e'.cachePath == e.cachePath && e.cachePath in s'.objects
    ensures s'.objects[e.cachePath] == s.objects[e.cachePath]
  {
    var i := Find(s.rows, a.sourceID, a.version);
    if i < |s.rows| {
      TouchedSame(s.rows, s.rows[i].id, now, e, e');
    } else if a.path in s.objects {
      StoredKeeps(s, a, now, {});
      EvictionKeeps(Stored(s, a, now), s', removed, maxBytes, {});
      assert e in Stored(s, a, now).rows;
      SameRow(Stored(s, a, now).rows, e, e');
    } else {
      SameRow(s.rows, e, e');
    }
  }

  /** The objects under the paths of surviving entries stay what they were. */
  lemma StepKeepsContents(s: State, action: Action, s': State, maxBytes: int, e: Entry, e': Entry)
    requires Consistent(s) && Proper(action) && Step(s, action, s', maxBytes)
    requires e in s.rows && e' in s'.rows && e'.id == e.id && LostBy(action) == {}
    requires e.cachePath in s.objects
    ensures e'.cachePath == e.cachePath && e.cachePath in s'.objects
    ensures s'.objects[e.cachePath] == s.objects[e.cachePath]
  {
    match action
    case DoStore(a, now, removed) =>
      StoreKeepsContents(s, s', a, now, maxBytes, removed, e, e');
    case DoLookup(sourceID, version, now, found) =>
      var i := Find(s.rows, sourceID, version);
      if i < |s.rows| {
        if s.rows[i].cachePath !in s.objects {
          WithoutMembers(s.rows, {s.rows[i].id}, e');
        } else {
          TouchedSame(s.rows, s.rows[i].id, now, e, e');
        }
      }
      SameRow(s.rows, e, e');
    case Upload(path, content) =>
      UnderRoot(e);
      SameRow(s.rows, e, e');
    case Lose(path) =>
  }

  // ---------- runs ----------

  ghost predicate Run(states: seq<State>, actions: seq<Action>, maxBytes: int) {
    && |states| == |actions| + 1
    && states[0].rows == []
    && forall i {:trigger actions[i]} | 0 <= i < |actions| ::
         Proper(actions[i]) && Step(states[i], actions[i], states[i + 1], maxBytes)
  }

  /** The paths whose objects were lost in the first `n` steps and not stored anew since. */
  ghost function Lost(states: seq<State>, actions: seq<Action>, n: nat): set<string>
    requires n <= |actions| <= |states|
  {
    if n == 0 then {}
    else Lost(states, actions, n - 1) + LostBy(actions[n - 1]) - FilledBy(states[n - 1], actions[n - 1])
  }

  ghost predicate PathsDiffer(rows: seq<Entry>) {
    forall e, f | e in rows && f in rows && e.cachePath == f.cachePath :: e == f
  }

  lemma NoPathShared(s: State)
    requires Consistent(s)
    ensures PathsDiffer(s.rows)
  {
    forall e, f | e in s.rows && f in s.rows && e.cachePath == f.cachePath
      ensures e == f
    {
      CleanRowsDisjoint(s.rows, e, f);
    }
  }

  /** What holds after the first `n` steps. */
  ghost predicate KeptAt(states: seq<State>, actions: seq<Action>, n: nat)
    requires n <= |actions| < |states|
  {
    && Consistent(states[n]) && PathsDiffer(states[n].rows)
    && Backed(states[n], Lost(states, actions, n))
  }

  lemma StartKept(states: seq<State>, actions: seq<Action>, maxBytes: int)
    requires Run(states, actions, maxBytes)
    ensures KeptAt(states, actions, 0)
  {
  }

  lemma NextKept(states: seq<State>, actions: seq<Action>, maxBytes: int, n: nat)
    requires Run(states, actions, maxBytes) && n < |actions| && KeptAt(states, actions, n)
    ensures KeptAt(states, actions, n + 1)
  {
    StepKeeps(states[n], actions[n], states[n + 1], maxBytes, Lost(states, actions, n));
    NoPathShared(states[n + 1]);
  }

  /** Over every run from an empty table: one entry per key, no path shared, and an entry
      without its object only where an object was lost after the last store that copied one to its path. */
  lemma {:induction false} RunKeeps(states: seq<State>, actions: seq<Action>, maxBytes: int, n: nat)
    requires Run(states, actions, maxBytes) && n <= |actions|
    ensures KeptAt(states, actions, n)
  {
    if n == 0 {
      StartKept(states, actions, maxBytes);
    } else {
      RunKeeps(states, actions, maxBytes, n - 1);
      NextKept(states, actions, maxBytes, n - 1);
    }
  }

  lemma FoundRow(rows: seq<Entry>, e: Entry)
    requires DistinctKeys(rows) && e in rows
    ensures var i := Find(rows, e.sourceID, e.version); i < |rows| && rows[i] == e
  {
    var k :| 0 <= k < |rows| && rows[k] == e;
  }

  lemma WithoutOnly(rows: seq<Entry>, e: Entry)
    requires DistinctIds(rows) && e in rows
    ensures forall f :: f in Without(rows, {e.id}) <==> f in rows && f != e
  {
    forall f
      ensures f in Without(rows, {e.id}) <==> f in rows && f != e
    {
      WithoutMembers(rows, {e.id}, f);
    }
  }

  /** A lookup that misses its object removes that entry and nothing else. */
  lemma StaleLookup(s: State, s': State, sourceID: string, version: string, now: int, found: Option<Entry>, e: Entry)
    requires Consistent(s) && LookupStep(s, s', sourceID, version, now, found)
    requires e in s.rows && e.sourceID == sourceID && e.version == version && e.cachePath !in s.objects
    ensures found == None && s'.objects == s.objects
    ensures forall f :: f in s'.rows <==> f in s.rows && f != e
  {
    FoundRow(s.rows, e);
    WithoutOnly(s.rows, e);
  }
}
