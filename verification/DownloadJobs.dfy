/** Creating the download jobs of a distribution (src/ldfd/download/manager.go,
    src/ldfd/db/download_jobs.go). */
module DownloadJobs {
  import opened Wrappers
  import opened Sequences

  datatype Status = Pending | Verifying | Downloading | Completed | Failed | Cancelled

  datatype Job = Job(
    distributionID: string, sourceID: string, version: string, componentIDs: seq<string>,
    status: Status, artifactPath: string, checksum: string, cacheHit: bool, maxRetries: int)

  datatype Key = Key(sourceID: string, version: string)

  /** The job table and the next fresh id. */
  datatype Table = Table(rows: map<nat, Job>, nextId: nat)

  // ---------- what jobs are looked up by ----------

  predicate Matches(job: Job, dist: string, key: Key) {
    job.distributionID == dist && job.sourceID == key.sourceID && job.version == key.version
  }

  /** What a component needs, when it is known, has a source and a version. */
  datatype Need = Need(componentID: string, key: Key)

  /** The registries a component is resolved with: components by name, effective sources
      by component, versions by name ("" when none is specified). */
  datatype World = World(components: map<string, string>, sources: map<string, string>, versions: map<string, string>)

  function Resolve(w: World, name: string): Option<Need> {
    if name !in w.components then None
    else if w.components[name] !in w.sources then None
    else if name !in w.versions || w.versions[name] == "" then None
    else Some(Need(w.components[name], Key(w.sources[w.components[name]], w.versions[name])))
  }

  /** A name is needed as a component under a key exactly when it names the component, the component's effective
      source is the key's, and the version specified under the name is the key's. */
  lemma ResolveMeaning(w: World, name: string, need: Need)
    ensures Resolve(w, name) == Some(need) <==>
            && (name, need.componentID) in w.components.Items
            && (need.componentID, need.key.sourceID) in w.sources.Items
            && (name, need.key.version) in w.versions.Items && need.key.version != ""
  {
  }

  /** What the cache and the storage happen to answer while one component is handled. */
  datatype Luck = Luck(cached: Option<string>, cacheCopies: bool, crossCopies: bool, artifactPath: string)

  // ---------- invariants ----------

  /** At most one job per distribution, source and version; no component listed twice. */
  ghost predicate Sound(t: Table) {
    && (forall id | id in t.rows :: id < t.nextId && NoRepeats(t.rows[id].componentIDs))
    && (forall a, b | a in t.rows && b in t.rows && t.rows[a].distributionID == t.rows[b].distributionID
          && t.rows[a].sourceID == t.rows[b].sourceID && t.rows[a].version == t.rows[b].version :: a == b)
  }

  /** The local map points at rows of its keys. */
  ghost predicate Tracks(created: map<Key, nat>, t: Table, dist: string) {
    forall k | k in created :: created[k] in t.rows && Matches(t.rows[created[k]], dist, k)
  }

  ghost predicate ServedBy(t: Table, id: nat, dist: string, need: Need) {
    && id in t.rows && Matches(t.rows[id], dist, need.key)
    && multiset(t.rows[id].componentIDs)[need.componentID] == 1
  }

  /** The component is served: a job of its key lists it, exactly once. */
  ghost predicate Served(t: Table, dist: string, need: Need) {
    exists id :: ServedBy(t, id, dist, need)
  }

  ghost predicate Grown(job: Job, later: Job) {
    later == job.(componentIDs := later.componentIDs) && job.componentIDs <= later.componentIDs
  }

  /** Rows stay, and change only by further components, and only in the distribution at hand. */
  ghost predicate Extends(t: Table, t': Table, dist: string) {
    && t.nextId <= t'.nextId
    && (forall id | id in t.rows :: id in t'.rows && Grown(t.rows[id], t'.rows[id])
          && (t.rows[id].distributionID != dist ==> t'.rows[id] == t.rows[id]))
    && (forall id | id in t'.rows && id !in t.rows :: t.nextId <= id && t'.rows[id].distributionID == dist)
  }

  /** How a job that is new can be complete already: its artifact was copied from the cache,
      or from a completed job of the same source and version that was there before. */
  ghost predicate Earned(start: Table, job: Job, luck: Luck) {
    job.status == Completed ==>
      && job.artifactPath == luck.artifactPath
      && ((job.cacheHit && luck.cached == Some(job.checksum) && luck.cacheCopies)
          || (!job.cacheHit && luck.crossCopies
              && exists id ::
                   id in start.rows && start.rows[id].status == Completed && start.rows[id].artifactPath != ""
                   && start.rows[id].sourceID == job.sourceID && start.rows[id].version == job.version
                   && start.rows[id].checksum == job.checksum))
  }

  ghost predicate CompletedLike(t: Table, id: nat, key: Key) {
    && id in t.rows && t.rows[id].status == Completed
    && t.rows[id].sourceID == key.sourceID && t.rows[id].version == key.version
  }

  /** When a new job is complete at once: on a cache hit that can be copied; failing that, when another
      completed job of the source and version has an artifact that can be copied. */
  ghost predicate RightStatus(t: Table, job: Job, caching: bool, luck: Luck) {
    var key := Key(job.sourceID, job.version);
    var hit := caching && luck.cached.Some? && luck.cacheCopies;
    && (job.status == Pending || job.status == Completed)
    && (job.status == Pending ==> job.artifactPath == "" && job.checksum == "")
    && (job.cacheHit <==> hit)
    && (hit ==> job.status == Completed)
    && (!caching ==> job.status == Pending)
    && (!hit && (!luck.crossCopies || forall id | CompletedLike(t, id, key) :: t.rows[id].artifactPath == "") ==>
          job.status == Pending)
    && (!hit && caching && luck.crossCopies && (exists id :: CompletedLike(t, id, key))
          && (forall id | CompletedLike(t, id, key) :: t.rows[id].artifactPath != "") ==>
          job.status == Completed)
    && Earned(t, job, luck)
  }

  /** Nothing but the needed component is added, and only to a job of its key. */
  ghost predicate AddsOnly(t: Table, t': Table, dist: string, need: Need) {
    forall id, c | id in t'.rows && c in t'.rows[id].componentIDs ::
      (id in t.rows && c in t.rows[id].componentIDs)
      || (c == need.componentID && Matches(t'.rows[id], dist, need.key))
  }

  lemma ExtendsTransitive(a: Table, b: Table, c: Table, dist: string)
    requires Extends(a, b, dist) && Extends(b, c, dist)
    ensures Extends(a, c, dist)
  {
    forall id | id in a.rows
      ensures id in c.rows && Grown(a.rows[id], c.rows[id])
      ensures a.rows[id].distributionID != dist ==> c.rows[id] == a.rows[id]
    {
      assert Grown(a.rows[id], b.rows[id]) && Grown(b.rows[id], c.rows[id]);
    }
  }

  lemma {:induction false} OnceInList(list: seq<string>, c: string)
    requires NoRepeats(list)
    ensures multiset(list)[c] == if c in list then 1 else 0
  {
    if list == [] {
    } else {
      assert list == [list[0]] + list[1..];
      OnceInList(list[1..], c);
      assert list[0] !in list[1..];
    }
  }

  lemma ServedLater(t: Table, t': Table, dist: string, need: Need)
    requires Served(t, dist, need) && Extends(t, t', dist) && Sound(t')
    ensures Served(t', dist, need)
  {
    var id :| ServedBy(t, id, dist, need);
    var before, after := t.rows[id].componentIDs, t'.rows[id].componentIDs;
    assert need.componentID in multiset(before);
    assert need.componentID in before;
    assert Grown(t.rows[id], t'.rows[id]);
    OnceInList(after, need.componentID);
    assert ServedBy(t', id, dist, need);
  }

  // ---------- adding a component to a job ----------

  function WithComponent(t: Table, id: nat, componentID: string): Table {
    if id !in t.rows || componentID in t.rows[id].componentIDs then t
    else t.(rows := t.rows[id := t.rows[id].(componentIDs := t.rows[id].componentIDs + [componentID])])
  }

  lemma AddServes(t: Table, id: nat, dist: string, need: Need)
    requires Sound(t) && id in t.rows && Matches(t.rows[id], dist, need.key)
    ensures var t' := WithComponent(t, id, need.componentID);
            Sound(t') && Extends(t, t', dist) && Served(t', dist, need) && t'.rows.Keys == t.rows.Keys
  {
    var t' := WithComponent(t, id, need.componentID);
    OnceInList(t'.rows[id].componentIDs, need.componentID);
    assert ServedBy(t', id, dist, need);
  }

  lemma CreateServes(t: Table, job: Job, dist: string, need: Need)
    requires Sound(t) && Matches(job, dist, need.key) && job.componentIDs == [need.componentID]
    requires forall id | id in t.rows :: !Matches(t.rows[id], dist, need.key)
    ensures var t' := Table(t.rows[t.nextId := job], t.nextId + 1);
            Sound(t') && Extends(t, t', dist) && Served(t', dist, need)
  {
    var t' := Table(t.rows[t.nextId := job], t.nextId + 1);
    OnceInList(job.componentIDs, need.componentID);
    assert ServedBy(t', t.nextId, dist, need);
  }

  // ---------- steps of the loop ----------

  /** What becomes of one component. */
  datatype Outcome = Created(id: nat) | Reused(id: nat) | Refused

  ghost predicate NoneLike(t: Table, dist: string, key: Key) {
    forall id | id in t.rows :: !Matches(t.rows[id], dist, key)
  }

  /** The new row is the first of its key; it lists the component alone and has the right status. */
  ghost predicate Adds(t: Table, t': Table, id: nat, dist: string, need: Need, caching: bool, luck: Luck) {
    && id == t.nextId && id in t'.rows && t'.rows.Keys == t.rows.Keys + {id}
    && NoneLike(t, dist, need.key)
    && Matches(t'.rows[id], dist, need.key) && t'.rows[id].componentIDs == [need.componentID]
    && RightStatus(t, t'.rows[id], caching, luck)
  }

  /** What handling one name does: a name that resolves is served, and nothing else is added; a job is
      new, or the jobs stay the same ones; a name that does not resolve changes nothing. */
  ghost predicate Handled(
    w: World, name: string, t: Table, t': Table, dist: string, caching: bool, luck: Luck, outcome: Outcome)
  {
    && Extends(t, t', dist)
    && (Resolve(w, name).None? <==> outcome == Refused)
    && (Resolve(w, name).Some? ==>
          Served(t', dist, Resolve(w, name).value) && AddsOnly(t, t', dist, Resolve(w, name).value))
    && (Resolve(w, name).None? ==> t' == t)
    && (if outcome.Created?
        then Resolve(w, name).Some? && Adds(t, t', outcome.id, dist, Resolve(w, name).value, caching, luck)
        else t'.rows.Keys == t.rows.Keys)
  }

  ghost predicate Asked(w: World, names: seq<string>, need: Need) {
    exists i | 0 <= i < |names| :: Resolve(w, names[i]) == Some(need)
  }

  /** Every component listed was listed before, or is one of the names with that source and version. */
  ghost predicate OnlyAsked(w: World, names: seq<string>, start: Table, t: Table, dist: string) {
    forall id, c | id in t.rows && c in t.rows[id].componentIDs ::
      (id in start.rows && c in start.rows[id].componentIDs)
      || (t.rows[id].distributionID == dist && Asked(w, names, Need(c, Key(t.rows[id].sourceID, t.rows[id].version))))
  }

  ghost predicate AllServed(w: World, names: seq<string>, t: Table, dist: string) {
    forall i | 0 <= i < |names| && Resolve(w, names[i]).Some? :: Served(t, dist, Resolve(w, names[i]).value)
  }

  /** The name is the first that needs the key. */
  ghost predicate Opens(w: World, names: seq<string>, n: int, key: Key) {
    && 0 <= n < |names| && Resolve(w, names[n]).Some? && Resolve(w, names[n]).value.key == key
    && forall m | 0 <= m < n && Resolve(w, names[m]).Some? :: Resolve(w, names[m]).value.key != key
  }

  /** The job was created for the name at `n`: the first that needs its key, with the status that the
      answers given for this name call for. */
  ghost predicate BornAt(w: World, names: seq<string>, n: nat, start: Table, job: Job, caching: bool, luck: nat -> Luck)
  {
    && Opens(w, names, n, Key(job.sourceID, job.version))
    && [Resolve(w, names[n]).value.componentID] <= job.componentIDs
    && RightStatus(start, job, caching, luck(n))
  }

  ghost predicate Born(
    w: World, names: seq<string>, n: nat, start: Table, job: Job, caching: bool, luck: nat -> Luck)
  {
    exists m: nat :: m < n && BornAt(w, names, m, start, job, caching, luck)
  }

  /** Exactly the ids that were not there at the start, each once, in the order of creation. */
  ghost predicate AreNew(
    w: World, names: seq<string>, n: nat, jobs: seq<nat>, start: Table, t: Table, caching: bool, luck: nat -> Luck)
  {
    && (forall id :: id in jobs <==> id in t.rows && id !in start.rows)
    && (forall i, j | 0 <= i < j < |jobs| :: jobs[i] < jobs[j])
    && (forall id | id in jobs :: id in t.rows && Born(w, names, n, start, t.rows[id], caching, luck))
  }

  lemma StillTracks(created: map<Key, nat>, t: Table, t': Table, dist: string)
    requires Tracks(created, t, dist) && Extends(t, t', dist)
    ensures Tracks(created, t', dist)
  {
    forall k | k in created
      ensures created[k] in t'.rows && Matches(t'.rows[created[k]], dist, k)
    {
      assert Grown(t.rows[created[k]], t'.rows[created[k]]);
    }
  }

  lemma ServedNext(w: World, names: seq<string>, n: nat, t: Table, t': Table, dist: string)
    requires n < |names| && AllServed(w, names[..n], t, dist) && Extends(t, t', dist) && Sound(t')
    requires Resolve(w, names[n]).Some? ==> Served(t', dist, Resolve(w, names[n]).value)
    ensures AllServed(w, names[..n + 1], t', dist)
  {
    forall i | 0 <= i <= n && Resolve(w, names[i]).Some?
      ensures Served(t', dist, Resolve(w, names[i]).value)
    {
      if i < n {
        assert names[..n][i] == names[i];
        ServedLater(t, t', dist, Resolve(w, names[i]).value);
      }
    }
  }

  lemma StillBorn(
    w: World, names: seq<string>, n: nat, start: Table, job: Job, later: Job, caching: bool, luck: nat -> Luck)
    requires Born(w, names, n, start, job, caching, luck) && Grown(job, later)
    ensures Born(w, names, n + 1, start, later, caching, luck)
  {
    var m: nat :| m < n && BornAt(w, names, m, start, job, caching, luck);
    assert BornAt(w, names, m, start, later, caching, luck);
  }

  lemma NewKept(
    w: World, names: seq<string>, n: nat, jobs: seq<nat>, start: Table, t: Table, t': Table, dist: string,
    caching: bool, luck: nat -> Luck)
    requires AreNew(w, names, n, jobs, start, t, caching, luck)
    requires Extends(t, t', dist) && t'.rows.Keys == t.rows.Keys
    ensures AreNew(w, names, n + 1, jobs, start, t', caching, luck)
  {
    forall id | id in jobs
      ensures id in t'.rows && Born(w, names, n + 1, start, t'.rows[id], caching, luck)
    {
      StillBorn(w, names, n, start, t.rows[id], t'.rows[id], caching, luck);
    }
    forall id
      ensures id in jobs <==> id in t'.rows && id !in start.rows
    {
      assert id in t'.rows.Keys <==> id in t.rows.Keys;
    }
  }

  /** A key that no row had can only be needed for the first time. */
  lemma FirstToNeed(w: World, names: seq<string>, n: nat, t: Table, dist: string, need: Need)
    requires n < |names| && Resolve(w, names[n]) == Some(need)
    requires AllServed(w, names[..n], t, dist) && NoneLike(t, dist, need.key)
    ensures Opens(w, names, n, need.key)
  {
    forall m | 0 <= m < n && Resolve(w, names[m]).Some?
      ensures Resolve(w, names[m]).value.key != need.key
    {
      assert names[..n][m] == names[m];
      assert Served(t, dist, Resolve(w, names[m]).value);
    }
  }

  lemma CompletedBefore(start: Table, t: Table, dist: string, key: Key, id: nat)
    requires Extends(start, t, dist) && NoneLike(t, dist, key)
    ensures CompletedLike(t, id, key) <==> CompletedLike(start, id, key)
    ensures CompletedLike(t, id, key) ==>
              t.rows[id].artifactPath == start.rows[id].artifactPath && t.rows[id].checksum == start.rows[id].checksum
  {
    if id in start.rows {
      assert Grown(start.rows[id], t.rows[id]);
    } else if id in t.rows {
      assert !Matches(t.rows[id], dist, key);
    }
  }

  lemma EarnedFromOld(start: Table, t: Table, job: Job, dist: string, luck: Luck)
    requires Extends(start, t, dist) && Earned(t, job, luck)
    requires NoneLike(t, dist, Key(job.sourceID, job.version))
    ensures Earned(start, job, luck)
  {
    var key := Key(job.sourceID, job.version);
    if job.status == Completed && !job.cacheHit {
      var id :| CompletedLike(t, id, key) && t.rows[id].artifactPath != "" && t.rows[id].checksum == job.checksum;
      CompletedBefore(start, t, dist, key, id);
      assert CompletedLike(start, id, key);
    }
  }

  /** What is new in this run belongs to the distribution and to other keys,
      so the completed jobs that matter were there at the start. */
  lemma RightFromOld(start: Table, t: Table, job: Job, dist: string, caching: bool, luck: Luck)
    requires Extends(start, t, dist) && RightStatus(t, job, caching, luck)
    requires NoneLike(t, dist, Key(job.sourceID, job.version))
    ensures RightStatus(start, job, caching, luck)
  {
    var key := Key(job.sourceID, job.version);
    forall id: nat
      ensures CompletedLike(t, id, key) <==> CompletedLike(start, id, key)
      ensures CompletedLike(t, id, key) ==>
                t.rows[id].artifactPath == start.rows[id].artifactPath && t.rows[id].checksum == start.rows[id].checksum
    {
      CompletedBefore(start, t, dist, key, id);
    }
    EarnedFromOld(start, t, job, dist, luck);
  }

  lemma NewBorn(
    w: World, names: seq<string>, n: nat, start: Table, t: Table, t': Table, id: nat, dist: string, need: Need,
    caching: bool, luck: nat -> Luck)
    requires n < |names| && Resolve(w, names[n]) == Some(need) && AllServed(w, names[..n], t, dist)
    requires Extends(start, t, dist) && Adds(t, t', id, dist, need, caching, luck(n))
    ensures Born(w, names, n + 1, start, t'.rows[id], caching, luck)
  {
    FirstToNeed(w, names, n, t, dist, need);
    RightFromOld(start, t, t'.rows[id], dist, caching, luck(n));
    assert BornAt(w, names, n, start, t'.rows[id], caching, luck);
  }

  lemma NewIds(jobs: seq<nat>, start: Table, t: Table, t': Table, id: nat, dist: string)
    requires forall k :: k in jobs <==> k in t.rows && k !in start.rows
    requires Sound(t) && Extends(start, t, dist) && id == t.nextId && t'.rows.Keys == t.rows.Keys + {id}
    ensures forall k :: k in jobs + [id] <==> k in t'.rows && k !in start.rows
    ensures forall i | 0 <= i < |jobs| :: jobs[i] < id
  {
    assert id !in t.rows;
    assert id !in start.rows;
    forall k
      ensures k in jobs + [id] <==> k in t'.rows && k !in start.rows
    {
      assert k in t'.rows.Keys <==> k in t.rows.Keys || k == id;
    }
    forall i | 0 <= i < |jobs|
      ensures jobs[i] < id
    {
      assert jobs[i] in jobs;
    }
  }

  lemma NewNext(
    w: World, names: seq<string>, n: nat, jobs: seq<nat>, start: Table, t: Table, t': Table, id: nat, dist: string,
    caching: bool, luck: nat -> Luck)
    requires AreNew(w, names, n, jobs, start, t, caching, luck) && Extends(start, t, dist) && Extends(t, t', dist)
    requires Sound(t) && id == t.nextId && id in t'.rows && t'.rows.Keys == t.rows.Keys + {id}
    requires Born(w, names, n + 1, start, t'.rows[id], caching, luck)
    ensures AreNew(w, names, n + 1, jobs + [id], start, t', caching, luck)
  {
    forall k | k in jobs
      ensures k in t'.rows && Born(w, names, n + 1, start, t'.rows[k], caching, luck)
    {
      StillBorn(w, names, n, start, t.rows[k], t'.rows[k], caching, luck);
    }
    NewIds(jobs, start, t, t', id, dist);
  }

  /** Where the loop stands after `n` names. */
  ghost predicate SoFar(
    w: World, names: seq<string>, n: nat, start: Table, t: Table, dist: string, jobs: seq<nat>,
    caching: bool, luck: nat -> Luck)
    requires n <= |names|
  {
    && Sound(start) && Sound(t) && Extends(start, t, dist)
    && AllServed(w, names[..n], t, dist)
    && OnlyAsked(w, names[..n], start, t, dist)
    && AreNew(w, names, n, jobs, start, t, caching, luck)
  }

  lemma AskedSnoc(w: World, names: seq<string>, n: nat, need: Need)
    requires n < |names|
    ensures Asked(w, names[..n + 1], need) <==> Asked(w, names[..n], need) || Resolve(w, names[n]) == Some(need)
  {
    var longer, shorter := names[..n + 1], names[..n];
    assert longer == shorter + [names[n]];
    if i: int :| 0 <= i < |shorter| && Resolve(w, shorter[i]) == Some(need) {
      assert longer[i] == shorter[i];
    }
    if Resolve(w, names[n]) == Some(need) {
      assert longer[n] == names[n];
    }
  }

  lemma AskedNext(w: World, names: seq<string>, n: nat, start: Table, t: Table, t': Table, dist: string)
    requires n < |names| && OnlyAsked(w, names[..n], start, t, dist) && Extends(t, t', dist)
    requires Resolve(w, names[n]).Some? ==> AddsOnly(t, t', dist, Resolve(w, names[n]).value)
    requires Resolve(w, names[n]).None? ==> t' == t
    ensures OnlyAsked(w, names[..n + 1], start, t', dist)
  {
    forall id, c | id in t'.rows && c in t'.rows[id].componentIDs
      ensures (id in start.rows && c in start.rows[id].componentIDs)
        || (t'.rows[id].distributionID == dist
            && Asked(w, names[..n + 1], Need(c, Key(t'.rows[id].sourceID, t'.rows[id].version))))
    {
      AskedSnoc(w, names, n, Need(c, Key(t'.rows[id].sourceID, t'.rows[id].version)));
      if id in t.rows && c in t.rows[id].componentIDs {
        assert Grown(t.rows[id], t'.rows[id]);
      }
    }
  }

  lemma OneMore(
    w: World, names: seq<string>, n: nat, start: Table, t: Table, t': Table, dist: string, jobs: seq<nat>,
    caching: bool, luck: nat -> Luck, outcome: Outcome)
    requires n < |names| && SoFar(w, names, n, start, t, dist, jobs, caching, luck)
    requires Sound(t') && Handled(w, names[n], t, t', dist, caching, luck(n), outcome)
    ensures var jobs' := if outcome.Created? then jobs + [outcome.id] else jobs;
            SoFar(w, names, n + 1, start, t', dist, jobs', caching, luck)
  {
    ServedNext(w, names, n, t, t', dist);
    AskedNext(w, names, n, start, t, t', dist);
    if outcome.Created? {
      NewBorn(w, names, n, start, t, t', outcome.id, dist, Resolve(w, names[n]).value, caching, luck);
      NewNext(w, names, n, jobs, start, t, t', outcome.id, dist, caching, luck);
    } else {
      NewKept(w, names, n, jobs, start, t, t', dist, caching, luck);
    }
    ExtendsTransitive(start, t, t', dist);
  }

  // ---------- creating the jobs ----------

  class Manager {
    const world: World
    const maxRetries: int
    const caching: bool
    var table: Table

    constructor (world: World, maxRetries: int, caching: bool, table: Table)
      ensures this.world == world && this.maxRetries == maxRetries && this.caching == caching && this.table == table
    {
      this.world, this.maxRetries, this.caching, this.table := world, maxRetries, caching, table;
    }

    /** SELECT ... WHERE distribution_id = ? AND source_id = ? AND version = ? LIMIT 1 */
    method GetBySourceAndVersion(dist: string, key: Key) returns (found: Option<nat>)
      ensures found.Some? ==> found.value in table.rows && Matches(table.rows[found.value], dist, key)
      ensures found.None? ==> forall id | id in table.rows :: !Matches(table.rows[id], dist, key)
    {
      var candidates := set id | id in table.rows && Matches(table.rows[id], dist, key);
      if candidates == {} {
        forall id | id in table.rows
          ensures !Matches(table.rows[id], dist, key)
        {
          assert id !in candidates;
        }
        return None;
      }
      var id :| id in candidates;
      return Some(id);
    }

    /** A completed job of any distribution for the source and version. */
    method GetCompletedBySourceAndVersion(key: Key) returns (found: Option<Job>)
      ensures found.Some? ==> exists id :: CompletedLike(table, id, key) && table.rows[id] == found.value
      ensures found.None? ==> forall id :: !CompletedLike(table, id, key)
    {
      var candidates := set id | id in table.rows && table.rows[id].status == Completed
                                 && table.rows[id].sourceID == key.sourceID && table.rows[id].version == key.version;
      if candidates == {} {
        forall id
          ensures !CompletedLike(table, id, key)
        {
          assert id !in candidates;
        }
        return None;
      }
      var id :| id in candidates;
      assert CompletedLike(table, id, key);
      return Some(table.rows[id]);
    }

    method AddComponentToJob(id: nat, componentID: string)
      modifies this
      ensures table == WithComponent(old(table), id, componentID)
    {
      if id !in table.rows {
        return;
      }
      var job := table.rows[id];
      if componentID in job.componentIDs {
        return;
      }
      table := table.(rows := table.rows[id := job.(componentIDs := job.componentIDs + [componentID])]);
    }

    method Create(job: Job) returns (id: nat)
      modifies this
      ensures id == old(table).nextId
      ensures table == Table(old(table).rows[id := job], id + 1)
    {
      id := table.nextId;
      table := Table(table.rows[id := job], id + 1);
    }

    /** Which job to create: a completed one when an artifact could be copied, else a pending one. */
    method NewJob(dist: string, need: Need, luck: Luck) returns (job: Job)
      requires forall id | id in table.rows :: !Matches(table.rows[id], dist, need.key)
      ensures Matches(job, dist, need.key) && job.componentIDs == [need.componentID] && job.maxRetries == maxRetries
      ensures RightStatus(table, job, caching, luck)
    {
      var key := need.key;
      var pending := Job(dist, key.sourceID, key.version, [need.componentID], Pending, "", "", false, maxRetries);
      if caching {
        if luck.cached.Some? {
          if luck.cacheCopies {
            var checksum := luck.cached.value;
            return pending.(
              status := Completed, artifactPath := luck.artifactPath, checksum := checksum, cacheHit := true);
          }
        }
        var crossJob := GetCompletedBySourceAndVersion(need.key);
        if crossJob.Some? && crossJob.value.artifactPath != "" {
          if luck.crossCopies {
            var checksum := crossJob.value.checksum;
            return pending.(status := Completed, artifactPath := luck.artifactPath, checksum := checksum);
          }
        }
      }
      return pending;
    }

    /** Component, effective source and version, or the first of them that is missing. */
    method ResolveNeed(name: string) returns (need: Option<Need>)
      ensures need == Resolve(world, name)
    {
      if name !in world.components {
        return None;
      }
      var componentID := world.components[name];
      if componentID !in world.sources {
        return None;
      }
      var sourceID := world.sources[componentID];
      if name !in world.versions || world.versions[name] == "" {
        return None;
      }
      return Some(Need(componentID, Key(sourceID, world.versions[name])));
    }

    /** The component joins an existing job of its key. */
    method Join(dist: string, id: nat, need: Need, ghost created: map<Key, nat>)
      requires Sound(table) && id in table.rows && Matches(table.rows[id], dist, need.key)
      requires Tracks(created, table, dist)
      modifies this
      ensures Sound(table) && Extends(old(table), table, dist) && Served(table, dist, need)
      ensures table.rows.Keys == old(table).rows.Keys && AddsOnly(old(table), table, dist, need)
      ensures Tracks(created, table, dist)
    {
      AddServes(table, id, dist, need);
      AddComponentToJob(id, need.componentID);
      StillTracks(created, old(table), table, dist);
    }

    /** The component gets a job of its own. */
    method Begin(dist: string, need: Need, luck: Luck, ghost created: map<Key, nat>) returns (id: nat)
      requires Sound(table) && forall id | id in table.rows :: !Matches(table.rows[id], dist, need.key)
      requires Tracks(created, table, dist)
      modifies this
      ensures Sound(table) && Extends(old(table), table, dist) && Served(table, dist, need)
      ensures Adds(old(table), table, id, dist, need, caching, luck)
      ensures AddsOnly(old(table), table, dist, need)
      ensures Tracks(created[need.key := id], table, dist)
    {
      var job := NewJob(dist, need, luck);
      CreateServes(table, job, dist, need);
      id := Create(job);
      StillTracks(created, old(table), table, dist);
    }

    method CreateOrReuseJobForComponent(dist: string, name: string, created: map<Key, nat>, luck: Luck)
      returns (outcome: Outcome, created': map<Key, nat>)
      requires Sound(table) && Tracks(created, table, dist)
      modifies this
      ensures Sound(table) && Tracks(created', table, dist)
      ensures Handled(world, name, old(table), table, dist, caching, luck, outcome)
    {
      created' := created;
      var resolved := ResolveNeed(name);
      if resolved.None? {
        return Refused, created';
      }
      var need := resolved.value;
      if need.key in created {
        Join(dist, created[need.key], need, created);
        return Reused(created[need.key]), created';
      }
      var existing := GetBySourceAndVersion(dist, need.key);
      if existing.Some? {
        created' := created[need.key := existing.value];
        Join(dist, existing.value, need, created');
        return Reused(existing.value), created';
      }
      var id := Begin(dist, need, luck, created);
      created' := created[need.key := id];
      return Created(id), created';
    }

    /** The jobs of a distribution: every component that can be resolved is listed exactly once in the
        one job of its source and version, and the returned ids are exactly those of the new jobs, in order. */
    method CreateJobsForDistribution(dist: string, names: seq<string>, luck: nat -> Luck)
      returns (jobs: seq<nat>, ghost created: map<Key, nat>)
      requires Sound(table)
      modifies this
      ensures Sound(table) && Extends(old(table), table, dist) && Tracks(created, table, dist)
      ensures AllServed(world, names, table, dist)
      ensures OnlyAsked(world, names, old(table), table, dist)
      ensures AreNew(world, names, |names|, jobs, old(table), table, caching, luck)
    {
      jobs := [];
      var createdJobs: map<Key, nat> := map[];
      ghost var start := table;
      var n := 0;
      while n < |names|
        invariant 0 <= n <= |names|
        invariant Sound(table) && Tracks(createdJobs, table, dist)
        invariant SoFar(world, names, n, start, table, dist, jobs, caching, luck)
      {
        ghost var before := table;
        var outcome, created' := CreateOrReuseJobForComponent(dist, names[n], createdJobs, luck(n));
        createdJobs := created';
        OneMore(world, names, n, start, before, table, dist, jobs, caching, luck, outcome);
        if outcome.Created? {
          jobs := jobs + [outcome.id];
        }
        n := n + 1;
      }
      assert names[..n] == names;
      created := createdJobs;
    }
  }
}
