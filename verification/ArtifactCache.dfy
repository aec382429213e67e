/** The shared artifact cache: its index table, its storage and LRU eviction
    (src/ldfd/download/cache.go, src/ldfd/db/artifact_cache.go). */
module ArtifactCache {
  import opened CachePaths
  import opened Wrappers

  datatype Entry = Entry(
    id: nat, sourceID: string, version: string, checksum: string, cachePath: string,
    sizeBytes: int, contentType: string, resolvedURL: string, lastUsed: int, useCount: int)

  /** The table, the storage backend (key to object) and the next fresh row id. */
  datatype State = State(rows: seq<Entry>, objects: map<string, string>, nextId: nat)

  // ---------- the table ----------

  function Total(rows: seq<Entry>): int {
    if rows == [] then 0 else rows[0].sizeBytes + Total(rows[1..])
  }

  /** DELETE FROM artifact_cache WHERE id IN (ids) */
  function Without(rows: seq<Entry>, ids: set<nat>): seq<Entry> {
    if rows == [] then []
    else if rows[0].id in ids then Without(rows[1..], ids)
    else [rows[0]] + Without(rows[1..], ids)
  }

  function Touch(e: Entry, now: int): Entry {
    e.(lastUsed := now, useCount := e.useCount + 1)
  }

  /** UPDATE artifact_cache SET last_used_at = now, use_count = use_count + 1 WHERE id = id */
  function Touched(rows: seq<Entry>, id: nat, now: int): (r: seq<Entry>)
    ensures |r| == |rows|
    ensures forall i | 0 <= i < |rows| :: r[i] == if rows[i].id == id then Touch(rows[i], now) else rows[i]
  {
    seq(|rows|, i requires 0 <= i < |rows| => if rows[i].id == id then Touch(rows[i], now) else rows[i])
  }

  /** The row of a key: its position, or |rows|. */
  function Find(rows: seq<Entry>, sourceID: string, version: string): (i: nat)
    ensures i <= |rows|
    ensures i < |rows| ==> rows[i].sourceID == sourceID && rows[i].version == version
    ensures forall j | 0 <= j < i :: !(rows[j].sourceID == sourceID && rows[j].version == version)
  {
    if rows == [] || (rows[0].sourceID == sourceID && rows[0].version == version) then 0
    else 1 + Find(rows[1..], sourceID, version)
  }

  ghost predicate DistinctIds(rows: seq<Entry>) {
    forall i, j | 0 <= i < j < |rows| :: rows[i].id != rows[j].id
  }

  ghost predicate DistinctKeys(rows: seq<Entry>) {
    forall i, j | 0 <= i < j < |rows| :: rows[i].sourceID != rows[j].sourceID || rows[i].version != rows[j].version
  }

  lemma {:induction false} WithoutMembers(rows: seq<Entry>, ids: set<nat>, e: Entry)
    ensures e in Without(rows, ids) <==> e in rows && e.id !in ids
  {
    if rows == [] {
    } else {
      WithoutMembers(rows[1..], ids, e);
      assert rows == [rows[0]] + rows[1..];
    }
  }

  lemma {:induction false} WithoutDistinct(rows: seq<Entry>, ids: set<nat>)
    ensures DistinctIds(rows) ==> DistinctIds(Without(rows, ids))
    ensures DistinctKeys(rows) ==> DistinctKeys(Without(rows, ids))
    ensures |Without(rows, ids)| <= |rows|
  {
    if rows == [] {
    } else {
      WithoutDistinct(rows[1..], ids);
      var rest := Without(rows[1..], ids);
      forall j | 0 <= j < |rest|
        ensures exists k | 1 <= k < |rows| :: rows[k] == rest[j]
      {
        WithoutMembers(rows[1..], ids, rest[j]);
        var k :| 0 <= k < |rows[1..]| && rows[1..][k] == rest[j];
        assert rows[k + 1] == rest[j];
      }
    }
  }

  lemma {:induction false} WithoutTwice(rows: seq<Entry>, a: set<nat>, b: set<nat>)
    ensures Without(Without(rows, a), b) == Without(rows, a + b)
  {
    if rows == [] {
    } else {
      WithoutTwice(rows[1..], a, b);
      if rows[0].id !in a {
        assert ([rows[0]] + Without(rows[1..], a))[1..] == Without(rows[1..], a);
      }
    }
  }

  lemma {:induction false} WithoutNothing(rows: seq<Entry>)
    ensures Without(rows, {}) == rows
  {
    if rows == [] {
    } else {
      WithoutNothing(rows[1..]);
    }
  }

  lemma {:induction false} WithoutShrinks(rows: seq<Entry>, e: Entry)
    requires e in rows
    ensures |Without(rows, {e.id})| < |rows|
  {
    if rows[0].id != e.id {
      assert e in rows[1..];
      WithoutShrinks(rows[1..], e);
    } else {
      WithoutDistinct(rows[1..], {e.id});
    }
  }

  // ---------- eviction, one entry at a time ----------

  ghost predicate IsLru(rows: seq<Entry>, e: Entry) {
    e in rows && forall r | r in rows :: e.lastUsed <= r.lastUsed
  }

  ghost function Ids(list: seq<Entry>): set<nat> {
    set e | e in list :: e.id
  }

  ghost function Left(rows: seq<Entry>, removed: seq<Entry>): seq<Entry> {
    Without(rows, Ids(removed))
  }

  /** Every entry went while the total was still too large, and was a least recently used one then. */
  ghost predicate RemovedInTurn(rows: seq<Entry>, removed: seq<Entry>, maxBytes: int) {
    forall k | 0 <= k < |removed| ::
      Total(Left(rows, removed[..k])) > maxBytes && IsLru(Left(rows, removed[..k]), removed[k])
  }

  ghost function Paths(list: seq<Entry>): set<string> {
    set e | e in list :: e.cachePath
  }

  lemma LeftNothing(rows: seq<Entry>)
    ensures Left(rows, []) == rows && Ids([]) == {} && Paths([]) == {}
  {
    assert Ids([]) == {};
    WithoutNothing(rows);
  }

  /** The simple policy: while the total is too large, remove a least recently used entry. */
  ghost predicate Evicts(rows: seq<Entry>, removed: seq<Entry>, maxBytes: int) {
    && RemovedInTurn(rows, removed, maxBytes)
    && (Total(Left(rows, removed)) <= maxBytes || Left(rows, removed) == [])
  }

  lemma LeftNext(rows: seq<Entry>, removed: seq<Entry>, e: Entry)
    ensures Left(rows, removed + [e]) == Without(Left(rows, removed), {e.id})
  {
    WithoutTwice(rows, Ids(removed), {e.id});
    assert Ids(removed + [e]) == Ids(removed) + {e.id};
  }

  lemma RemoveNext(rows: seq<Entry>, removed: seq<Entry>, e: Entry, maxBytes: int)
    requires RemovedInTurn(rows, removed, maxBytes)
    requires Total(Left(rows, removed)) > maxBytes && IsLru(Left(rows, removed), e)
    ensures RemovedInTurn(rows, removed + [e], maxBytes)
    ensures Left(rows, removed + [e]) == Without(Left(rows, removed), {e.id})
    ensures Paths(removed + [e]) == Paths(removed) + {e.cachePath}
  {
    LeftNext(rows, removed, e);
    var longer := removed + [e];
    forall k | 0 <= k < |longer|
      ensures Total(Left(rows, longer[..k])) > maxBytes && IsLru(Left(rows, longer[..k]), longer[k])
    {
      if k < |removed| {
        assert longer[..k] == removed[..k];
      } else {
        assert longer[..k] == removed;
      }
    }
  }

  lemma EvictNext(start: State, removed: seq<Entry>, e: Entry, maxBytes: int, objects: map<string, string>)
    requires RemovedInTurn(start.rows, removed, maxBytes) && objects == start.objects - Paths(removed)
    requires Total(Left(start.rows, removed)) > maxBytes && IsLru(Left(start.rows, removed), e)
    ensures RemovedInTurn(start.rows, removed + [e], maxBytes)
    ensures Left(start.rows, removed + [e]) == Without(Left(start.rows, removed), {e.id})
    ensures objects - {e.cachePath} == start.objects - Paths(removed + [e])
  {
    RemoveNext(start.rows, removed, e, maxBytes);
  }

  // ---------- the steps ----------

  /** Rows a maintained cache holds: the path is the one built for the key, from usable names. */
  predicate Clean(e: Entry) {
    && e.cachePath == BuildCachePath(e.sourceID, e.version, e.resolvedURL)
    && NoSlash(e.sourceID) && Named(e.version, e.resolvedURL)
  }

  datatype Artifact = Artifact(
    sourceID: string, version: string, path: string, checksum: string, size: int, contentType: string)

  function NewEntry(a: Artifact, id: nat, now: int): Entry {
    var cachePath := BuildCachePath(a.sourceID, a.version, a.path);
    Entry(id, a.sourceID, a.version, a.checksum, cachePath, a.size, a.contentType, a.path, now, 1)
  }

  /** The state between the creation of an entry and the eviction it may trigger. */
  function Stored(s: State, a: Artifact, now: int): State
    requires a.path in s.objects
  {
    var e := NewEntry(a, s.nextId, now);
    State(s.rows + [e], s.objects[e.cachePath := s.objects[a.path]], s.nextId + 1)
  }

  ghost predicate EvictionStep(s: State, s': State, maxBytes: int, removed: seq<Entry>) {
    && s'.rows == Left(s.rows, removed) && s'.objects == s.objects - Paths(removed) && s'.nextId == s.nextId
    && (if maxBytes <= 0 then removed == [] else Evicts(s.rows, removed, maxBytes))
  }

  ghost predicate StoreStep(s: State, s': State, a: Artifact, now: int, maxBytes: int, removed: seq<Entry>) {
    var i := Find(s.rows, a.sourceID, a.version);
    if i < |s.rows| then s' == s.(rows := Touched(s.rows, s.rows[i].id, now))
    else if a.path !in s.objects then s' == s
    else EvictionStep(Stored(s, a, now), s', maxBytes, removed)
  }

  ghost predicate LookupStep(s: State, s': State, sourceID: string, version: string, now: int, found: Option<Entry>) {
    var i := Find(s.rows, sourceID, version);
    if i == |s.rows| then s' == s && found == None
    else if s.rows[i].cachePath !in s.objects then
      s' == s.(rows := Without(s.rows, {s.rows[i].id})) && found == None
    else s' == s.(rows := Touched(s.rows, s.rows[i].id, now)) && found == Some(s.rows[i])
  }

  lemma WithoutValid(rows: seq<Entry>, ids: set<nat>)
    ensures DistinctIds(rows) ==> DistinctIds(Without(rows, ids))
    ensures forall e | e in Without(rows, ids) :: e in rows && e.id !in ids
  {
    WithoutDistinct(rows, ids);
    forall e | e in Without(rows, ids)
      ensures e in rows && e.id !in ids
    {
      WithoutMembers(rows, ids, e);
    }
  }

  // ---------- batches ----------

  /** Rows of the table in order of last use, none of the others older than any of them. */
  ghost predicate LruPrefix(rows: seq<Entry>, list: seq<Entry>) {
    && (forall i | 0 <= i < |list| :: list[i] in rows)
    && DistinctIds(list)
    && (forall i, j | 0 <= i < j < |list| :: list[i].lastUsed <= list[j].lastUsed)
    && (forall i, r | 0 <= i < |list| && r in rows && r.id !in Ids(list) :: list[i].lastUsed <= r.lastUsed)
  }

  method LeastRecent(rows: seq<Entry>) returns (e: Entry)
    requires rows != []
    ensures IsLru(rows, e)
  {
    e := rows[0];
    var n := 1;
    while n < |rows|
      invariant 1 <= n <= |rows|
      invariant e in rows && forall i | 0 <= i < n :: e.lastUsed <= rows[i].lastUsed
    {
      if rows[n].lastUsed < e.lastUsed {
        e := rows[n];
      }
      n := n + 1;
    }
  }

  lemma {:induction false} NothingWithout(rows: seq<Entry>, id: nat)
    requires forall i | 0 <= i < |rows| :: rows[i].id != id
    ensures Without(rows, {id}) == rows
  {
    if rows == [] {
    } else {
      NothingWithout(rows[1..], id);
    }
  }

  lemma {:induction false} WithoutOne(rows: seq<Entry>, e: Entry)
    requires DistinctIds(rows) && e in rows
    ensures |Without(rows, {e.id})| == |rows| - 1
  {
    if rows[0].id == e.id {
      NothingWithout(rows[1..], e.id);
    } else {
      WithoutOne(rows[1..], e);
    }
  }

  lemma SameId(rows: seq<Entry>, a: Entry, b: Entry)
    requires DistinctIds(rows) && a in rows && b in rows && a.id == b.id
    ensures a == b
  {
  }

  lemma LruPrefixSnoc(rows: seq<Entry>, list: seq<Entry>, e: Entry)
    requires LruPrefix(rows, list) && IsLru(Left(rows, list), e)
    ensures LruPrefix(rows, list + [e])
  {
    WithoutMembers(rows, Ids(list), e);
    var longer := list + [e];
    forall i, j | 0 <= i < j < |longer|
      ensures longer[i].id != longer[j].id && longer[i].lastUsed <= longer[j].lastUsed
    {
      if j == |list| {
        assert list[i] in list && list[i].id in Ids(list);
      }
    }
    forall i, r | 0 <= i < |longer| && r in rows && r.id !in Ids(longer)
      ensures longer[i].lastUsed <= r.lastUsed
    {
      assert Ids(longer) == Ids(list) + {e.id};
      WithoutMembers(rows, Ids(list), r);
    }
  }

  lemma Extend(rows: seq<Entry>, list: seq<Entry>, rest: seq<Entry>, next: Entry)
    requires DistinctIds(rows) && LruPrefix(rows, list) && rest == Left(rows, list) && IsLru(rest, next)
    ensures LruPrefix(rows, list + [next])
    ensures Left(rows, list + [next]) == Without(rest, {next.id})
    ensures |Without(rest, {next.id})| == |rest| - 1
  {
    LruPrefixSnoc(rows, list, next);
    LeftNext(rows, list, next);
    WithoutDistinct(rows, Ids(list));
    WithoutOne(rest, next);
  }

  lemma InBatch(batch: seq<Entry>, entries: seq<Entry>, n: nat, r: Entry)
    requires DistinctIds(batch) && LruPrefix(batch, entries) && n < |entries|
    requires r in batch && r.id !in Ids(entries[..n])
    ensures entries[n].lastUsed <= r.lastUsed
  {
    forall i | 0 <= i < n
      ensures entries[i].id in Ids(entries[..n])
    {
      assert entries[..n][i] == entries[i];
    }
    if r.id in Ids(entries) {
      var j :| 0 <= j < |entries| && entries[j].id == r.id;
      SameId(batch, entries[j], r);
    }
  }

  /** After the first `n` of a batch are gone, the next one is least recently used among the rest. */
  lemma LruOfRest(batch: seq<Entry>, entries: seq<Entry>, n: nat)
    requires DistinctIds(batch) && LruPrefix(batch, entries) && n < |entries|
    ensures IsLru(Left(batch, entries[..n]), entries[n])
  {
    var gone := Ids(entries[..n]);
    forall e | e in entries[..n]
      ensures e.id != entries[n].id
    {
      var i :| 0 <= i < n && entries[..n][i] == e;
      assert entries[i] == e;
    }
    WithoutMembers(batch, gone, entries[n]);
    forall r | r in Left(batch, entries[..n])
      ensures entries[n].lastUsed <= r.lastUsed
    {
      WithoutMembers(batch, gone, r);
      InBatch(batch, entries, n, r);
    }
  }

  lemma NextOfBatch(batch: seq<Entry>, entries: seq<Entry>, n: nat)
    requires DistinctIds(batch) && LruPrefix(batch, entries) && n < |entries|
    ensures IsLru(Left(batch, entries[..n]), entries[n])
    ensures Left(batch, entries[..n + 1]) == Without(Left(batch, entries[..n]), {entries[n].id})
  {
    LruOfRest(batch, entries, n);
    assert entries[..n + 1] == entries[..n] + [entries[n]];
    LeftNext(batch, entries[..n], entries[n]);
  }

  // ---------- what a use and a total are ----------

  lemma StartWasOver(rows: seq<Entry>, removed: seq<Entry>, maxBytes: int)
    requires RemovedInTurn(rows, removed, maxBytes) && Total(Left(rows, removed)) > maxBytes
    ensures Total(rows) > maxBytes
  {
    LeftNothing(rows);
    assert removed != [] ==> removed[..0] == [];
  }

  predicate HasKey(e: Entry, sourceID: string, version: string) {
    e.sourceID == sourceID && e.version == version
  }

  /** A row of the key is now last used at `now`, once more than before; nothing else changed. */
  ghost predicate UsedAt(before: seq<Entry>, after: seq<Entry>, sourceID: string, version: string, now: int) {
    && |after| == |before|
    && exists i | 0 <= i < |before| ::
         && HasKey(before[i], sourceID, version)
         && after[i].lastUsed == now && after[i].useCount == before[i].useCount + 1
         && after[i] == before[i].(lastUsed := after[i].lastUsed, useCount := after[i].useCount)
         && forall j | 0 <= j < |before| && j != i :: after[j] == before[j]
  }

  ghost predicate Known(rows: seq<Entry>, sourceID: string, version: string) {
    exists e :: e in rows && HasKey(e, sourceID, version)
  }

  lemma TouchIsUse(rows: seq<Entry>, i: nat, now: int)
    requires DistinctIds(rows) && i < |rows|
    ensures UsedAt(rows, Touched(rows, rows[i].id, now), rows[i].sourceID, rows[i].version, now)
  {
    var after := Touched(rows, rows[i].id, now);
    forall j | 0 <= j < |rows| && j != i
      ensures after[j] == rows[j]
    {
    }
    assert HasKey(rows[i], rows[i].sourceID, rows[i].version);
  }

  lemma KnownIsFound(rows: seq<Entry>, sourceID: string, version: string)
    ensures Known(rows, sourceID, version) <==> Find(rows, sourceID, version) < |rows|
  {
    var i := Find(rows, sourceID, version);
    if i < |rows| {
      assert HasKey(rows[i], sourceID, version);
    }
  }

  /** Taking a row away takes its bytes, and only those, off the total. */
  lemma {:induction false} TotalWithout(rows: seq<Entry>, e: Entry)
    requires DistinctIds(rows) && e in rows
    ensures Total(Without(rows, {e.id})) == Total(rows) - e.sizeBytes
  {
    if rows[0].id == e.id {
      NothingWithout(rows[1..], e.id);
    } else {
      TotalWithout(rows[1..], e);
    }
  }

  // ---------- the cache ----------

  class Cache {
    const enabled: bool
    const maxSizeGB: int
    var rows: seq<Entry>
    var objects: map<string, string>
    var nextId: nat

    function View(): State
      reads this
    {
      State(rows, objects, nextId)
    }

    function MaxBytes(): int {
      maxSizeGB * 1024 * 1024 * 1024
    }

    /** What the primary key of the table guarantees. */
    ghost predicate Valid()
      reads this
    {
      DistinctIds(rows) && forall e | e in rows :: e.id < nextId
    }

    constructor (enabled: bool, maxSizeGB: int, objects: map<string, string>)
      ensures Valid() && View() == State([], objects, 0)
      ensures this.enabled == enabled && this.maxSizeGB == maxSizeGB
    {
      this.enabled, this.maxSizeGB := enabled, maxSizeGB;
      this.rows, this.objects, nextId := [], objects, 0;
    }

    method Lookup(sourceID: string, version: string, now: int) returns (found: Option<Entry>)
      requires Valid()
      modifies this
      ensures Valid()
      ensures !enabled ==> View() == old(View()) && found == None
      ensures enabled ==> LookupStep(old(View()), View(), sourceID, version, now, found)
      ensures found.Some? ==>
                && found.value in old(rows) && HasKey(found.value, sourceID, version)
                && UsedAt(old(rows), rows, sourceID, version, now)
    {
      if !enabled {
        return None;
      }
      var i := Find(rows, sourceID, version);
      if i == |rows| {
        return None;
      }
      var entry := rows[i];
      if entry.cachePath !in objects {
        WithoutValid(rows, {entry.id});
        rows := Without(rows, {entry.id});
        return None;
      }
      TouchIsUse(rows, i, now);
      rows := Touched(rows, entry.id, now);
      return Some(entry);
    }

    /** SELECT ... ORDER BY last_used_at ASC LIMIT limit */
    method ListLRU(limit: nat) returns (list: seq<Entry>)
      requires Valid()
      ensures |list| == if |rows| < limit then |rows| else limit
      ensures LruPrefix(rows, list)
    {
      list := [];
      var rest := rows;
      LeftNothing(rows);
      while rest != [] && |list| < limit
        invariant |list| + |rest| == |rows| && |list| <= limit
        invariant LruPrefix(rows, list)
        invariant rest == Left(rows, list)
        decreases limit - |list|
      {
        var next := LeastRecent(rest);
        Extend(rows, list, rest, next);
        list := list + [next];
        rest := Without(rest, {next.id});
      }
    }

    /** Where an eviction stands that began in `start` and has removed `removed`. */
    ghost predicate Evicting(start: State, removed: seq<Entry>)
      reads this
    {
      && Valid() && nextId == start.nextId
      && rows == Left(start.rows, removed) && objects == start.objects - Paths(removed)
      && RemovedInTurn(start.rows, removed, MaxBytes())
    }

    method EvictEntry(entry: Entry, ghost start: State, ghost before: seq<Entry>)
      requires Evicting(start, before) && Total(rows) > MaxBytes() && IsLru(rows, entry)
      modifies this
      ensures Evicting(start, before + [entry])
      ensures rows == Without(old(rows), {entry.id}) && |rows| < |old(rows)|
    {
      EvictNext(start, before, entry, MaxBytes(), objects);
      WithoutShrinks(rows, entry);
      WithoutValid(rows, {entry.id});
      objects := objects - {entry.cachePath};
      rows := Without(rows, {entry.id});
    }

    /** The inner loop: remove a batch, checking the total after every removal. */
    method EvictBatch(entries: seq<Entry>, ghost start: State, ghost before: seq<Entry>)
      returns (done: bool, ghost removed: seq<Entry>)
      requires Evicting(start, before) && Total(rows) > MaxBytes()
      requires entries != [] && LruPrefix(rows, entries)
      modifies this
      ensures Evicting(start, removed)
      ensures |rows| < |old(rows)|
      ensures done <==> Total(rows) <= MaxBytes()
    {
      removed := before;
      ghost var batch := rows;
      var n := 0;
      LeftNothing(batch);
      while n < |entries|
        invariant 0 <= n <= |entries|
        invariant Evicting(start, removed) && Total(rows) > MaxBytes()
        invariant rows == Left(batch, entries[..n])
        invariant n > 0 ==> |rows| < |batch|
      {
        var entry := entries[n];
        NextOfBatch(batch, entries, n);
        EvictEntry(entry, start, removed);
        removed := removed + [entry];
        n := n + 1;
        if Total(rows) <= MaxBytes() {
          return true, removed;
        }
      }
      return false, removed;
    }

    method Evict() returns (ghost removed: seq<Entry>)
      requires Valid()
      modifies this
      ensures Valid()
      ensures EvictionStep(old(View()), View(), MaxBytes(), removed)
      ensures maxSizeGB > 0 ==> Total(rows) <= maxSizeGB * 1_073_741_824
      ensures maxSizeGB <= 0 || Total(old(rows)) <= maxSizeGB * 1_073_741_824 ==> View() == old(View())
    {
      removed := [];
      LeftNothing(rows);
      if maxSizeGB <= 0 {
        return;
      }
      ghost var start := View();
      while true
        invariant Evicting(start, removed)
        invariant removed == [] || Total(start.rows) > MaxBytes()
        decreases |rows|
      {
        if Total(rows) <= MaxBytes() {
          return;
        }
        StartWasOver(start.rows, removed, MaxBytes());
        var entries := ListLRU(5);
        if |entries| == 0 {
          return;
        }
        var done;
        done, removed := EvictBatch(entries, start, removed);
        if done {
          return;
        }
      }
    }

    method Store(a: Artifact, now: int) returns (ok: bool, ghost removed: seq<Entry>)
      requires Valid()
      modifies this
      ensures Valid()
      ensures !enabled ==> ok && View() == old(View())
      ensures enabled ==>
                && StoreStep(old(View()), View(), a, now, MaxBytes(), removed)
                && (!ok <==> Find(old(rows), a.sourceID, a.version) == |old(rows)| && a.path !in old(objects))
      ensures enabled && Known(old(rows), a.sourceID, a.version) ==> UsedAt(old(rows), rows, a.sourceID, a.version, now)
    {
      removed := [];
      KnownIsFound(rows, a.sourceID, a.version);
      if !enabled {
        return true, removed;
      }
      var i := Find(rows, a.sourceID, a.version);
      if i < |rows| {
        TouchIsUse(rows, i, now);
        rows := Touched(rows, rows[i].id, now);
        return true, removed;
      }
      if a.path !in objects {
        return false, removed;
      }
      var entry := NewEntry(a, nextId, now);
      objects := objects[entry.cachePath := objects[a.path]];
      rows := rows + [entry];
      nextId := nextId + 1;
      removed := Evict();
      return true, removed;
    }
  }
}
