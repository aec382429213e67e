/** The table of discovered versions and its bulk upsert (src/ldfd/db/source_versions.go). */
module SourceVersions {
  import opened Wrappers

  datatype Key = Key(sourceID: string, sourceType: string, version: string)

  /** The columns an upsert overwrites. */
  datatype Columns = Columns(
    versionType: string, releaseDate: int, downloadURL: string, checksum: string,
    checksumType: string, fileSize: int, isStable: bool)

  datatype Row = Row(id: string, columns: Columns, discoveredAt: int)

  /** A version to write; an empty id and a missing time are filled in. */
  datatype Version = Version(key: Key, id: string, columns: Columns, discoveredAt: Option<int>)

  datatype Result = Written(count: int) | Failed

  type Rows = map<Key, Row>

  function Filled(c: Columns): Columns {
    if c.versionType == "" then c.(versionType := "stable") else c
  }

  /** The row a version makes if its key is new. */
  function NewRow(v: Version, freshID: string, now: int): Row {
    Row(if v.id == "" then freshID else v.id, Filled(v.columns),
        if v.discoveredAt.None? then now else v.discoveredAt.value)
  }

  // ---------- what a batch does ----------

  ghost predicate Mentions(batch: seq<Version>, k: Key) {
    exists i | 0 <= i < |batch| :: batch[i].key == k
  }

  ghost predicate IsLast(batch: seq<Version>, i: int) {
    0 <= i < |batch| && forall j | i < j < |batch| :: batch[j].key != batch[i].key
  }

  ghost predicate IsFirst(batch: seq<Version>, i: int) {
    0 <= i < |batch| && forall j | 0 <= j < i :: batch[j].key != batch[i].key
  }

  /** Keys grow by those of the batch; keys already present keep id and time of discovery;
      rows the batch does not mention stay. */
  ghost predicate Keeps(rows: Rows, batch: seq<Version>, rows': Rows) {
    && (forall k {:trigger k in rows'} :: k in rows' <==> k in rows || Mentions(batch, k))
    && (forall k | k in rows :: rows'[k].id == rows[k].id && rows'[k].discoveredAt == rows[k].discoveredAt)
    && (forall k | k in rows && !Mentions(batch, k) :: rows'[k] == rows[k])
  }

  /** The columns as given, but a missing version type becomes "stable". */
  ghost predicate Stands(stored: Columns, given: Columns) {
    && stored == given.(versionType := stored.versionType)
    && (given.versionType != "" ==> stored.versionType == given.versionType)
    && (given.versionType == "" ==> stored.versionType == "stable")
  }

  /** The last element for a key decides the overwritten columns. */
  ghost predicate LastWins(batch: seq<Version>, rows': Rows) {
    forall i {:trigger IsLast(batch, i)} | IsLast(batch, i) ::
      batch[i].key in rows' && Stands(rows'[batch[i].key].columns, batch[i].columns)
  }

  /** Id and time of discovery as given, where they are given. */
  ghost predicate NamedBy(row: Row, v: Version, freshID: string, now: int) {
    && (v.id != "" ==> row.id == v.id) && (v.id == "" ==> row.id == freshID)
    && (v.discoveredAt.Some? ==> row.discoveredAt == v.discoveredAt.value)
    && (v.discoveredAt.None? ==> row.discoveredAt == now)
  }

  /** A new key takes id and time of discovery from its first element. */
  ghost predicate FirstNames(rows: Rows, batch: seq<Version>, rows': Rows, uuid: nat -> string, now: int) {
    forall i {:trigger IsFirst(batch, i)} | IsFirst(batch, i) && batch[i].key !in rows ::
      batch[i].key in rows' && NamedBy(rows'[batch[i].key], batch[i], uuid(i), now)
  }

  ghost predicate Upserted(rows: Rows, batch: seq<Version>, rows': Rows, uuid: nat -> string, now: int) {
    Keeps(rows, batch, rows') && LastWins(batch, rows') && FirstNames(rows, batch, rows', uuid, now)
  }

  /** INSERT ... ON CONFLICT(source_id, source_type, version) DO UPDATE SET the overwritten columns */
  function Upsert(rows: Rows, v: Version, freshID: string, now: int): Rows {
    if v.key in rows then rows[v.key := rows[v.key].(columns := Filled(v.columns))]
    else rows[v.key := NewRow(v, freshID, now)]
  }

  lemma MentionsSnoc(batch: seq<Version>, n: nat, k: Key)
    requires n < |batch|
    ensures Mentions(batch[..n + 1], k) <==> Mentions(batch[..n], k) || batch[n].key == k
  {
    var longer, shorter := batch[..n + 1], batch[..n];
    if i: int :| 0 <= i < |longer| && longer[i].key == k {
      assert i < n ==> shorter[i] == longer[i];
    }
    if i: int :| 0 <= i < |shorter| && shorter[i].key == k {
      assert longer[i] == shorter[i];
    }
    assert longer[n] == batch[n];
  }

  lemma LastSnoc(batch: seq<Version>, n: nat, i: int)
    requires n < |batch| && IsLast(batch[..n + 1], i) && i < n
    ensures IsLast(batch[..n], i) && batch[..n][i] == batch[i] == batch[..n + 1][i] && batch[n].key != batch[i].key
  {
    var longer, shorter := batch[..n + 1], batch[..n];
    assert longer[n] == batch[n] && forall j | 0 <= j < n :: shorter[j] == longer[j] == batch[j];
  }

  lemma FirstSnoc(batch: seq<Version>, n: nat, i: int)
    requires n < |batch| && IsFirst(batch[..n + 1], i)
    ensures i < n ==> IsFirst(batch[..n], i) && batch[..n][i] == batch[i] == batch[..n + 1][i]
    ensures i == n ==> !Mentions(batch[..n], batch[n].key)
  {
    var longer, shorter := batch[..n + 1], batch[..n];
    assert longer[n] == batch[n] && forall j | 0 <= j < n :: shorter[j] == longer[j] == batch[j];
  }

  lemma KeepsNext(rows: Rows, batch: seq<Version>, n: nat, tx: Rows, id: string, now: int)
    requires n < |batch| && Keeps(rows, batch[..n], tx)
    ensures Keeps(rows, batch[..n + 1], Upsert(tx, batch[n], id, now))
  {
    forall k {
      MentionsSnoc(batch, n, k);
    }
  }

  lemma LastWinsNext(batch: seq<Version>, n: nat, tx: Rows, id: string, now: int)
    requires n < |batch| && LastWins(batch[..n], tx)
    ensures LastWins(batch[..n + 1], Upsert(tx, batch[n], id, now))
  {
    var longer, tx' := batch[..n + 1], Upsert(tx, batch[n], id, now);
    assert longer[n] == batch[n];
    forall i | IsLast(longer, i)
      ensures longer[i].key in tx' && Stands(tx'[longer[i].key].columns, longer[i].columns)
    {
      if i < n {
        LastSnoc(batch, n, i);
      }
    }
  }

  lemma FirstNamesNext(rows: Rows, batch: seq<Version>, n: nat, tx: Rows, uuid: nat -> string, now: int)
    requires n < |batch| && Keeps(rows, batch[..n], tx) && FirstNames(rows, batch[..n], tx, uuid, now)
    ensures FirstNames(rows, batch[..n + 1], Upsert(tx, batch[n], uuid(n), now), uuid, now)
  {
    var longer, tx' := batch[..n + 1], Upsert(tx, batch[n], uuid(n), now);
    assert longer[n] == batch[n];
    forall i | IsFirst(longer, i) && longer[i].key !in rows
      ensures longer[i].key in tx' && NamedBy(tx'[longer[i].key], longer[i], uuid(i), now)
    {
      FirstSnoc(batch, n, i);
    }
  }

  /** The open transaction after `n` statements. */
  function Applied(rows: Rows, batch: seq<Version>, n: nat, uuid: nat -> string, now: int): Rows
    requires n <= |batch|
  {
    if n == 0 then rows else Upsert(Applied(rows, batch, n - 1, uuid, now), batch[n - 1], uuid(n - 1), now)
  }

  lemma UpsertedNext(
    rows: Rows, batch: seq<Version>, n: nat, m: nat, tx: Rows, tx': Rows, uuid: nat -> string, now: int)
    requires n < |batch| && m == n + 1 && tx' == Upsert(tx, batch[n], uuid(n), now)
    requires Upserted(rows, batch[..n], tx, uuid, now)
    ensures Upserted(rows, batch[..m], tx', uuid, now)
  {
    KeepsNext(rows, batch, n, tx, uuid(n), now);
    LastWinsNext(batch, n, tx, uuid(n), now);
    FirstNamesNext(rows, batch, n, tx, uuid, now);
  }

  lemma UpsertedNothing(rows: Rows, batch: seq<Version>, uuid: nat -> string, now: int)
    ensures Upserted(rows, batch[..0], rows, uuid, now)
  {
  }

  /** What the statements of a whole batch amount to. */
  lemma {:induction false} AppliedMeaning(rows: Rows, batch: seq<Version>, n: nat, uuid: nat -> string, now: int)
    requires n <= |batch|
    ensures Upserted(rows, batch[..n], Applied(rows, batch, n, uuid, now), uuid, now)
  {
    if n == 0 {
      UpsertedNothing(rows, batch, uuid, now);
    } else {
      var m: nat := n - 1;
      AppliedMeaning(rows, batch, m, uuid, now);
      var tx, tx' := Applied(rows, batch, m, uuid, now), Applied(rows, batch, n, uuid, now);
      UpsertedNext(rows, batch, m, n, tx, tx', uuid, now);
    }
  }

  lemma UpsertSize(rows: Rows, v: Version, freshID: string, now: int)
    ensures |Upsert(rows, v, freshID, now)| == |rows| + if v.key in rows then 0 else 1
  {
    var rows' := Upsert(rows, v, freshID, now);
    assert rows'.Keys == rows.Keys + {v.key};
    assert |rows'| == |rows'.Keys| && |rows| == |rows.Keys|;
  }

  class SourceVersionTable {
    var rows: Rows

    constructor ()
      ensures rows == map[]
    {
      rows := map[];
    }

    /** One transaction: it either writes the whole batch and counts the new keys, or changes nothing.
        `failure` is the statement that fails, if one does; `commitFails` whether the commit fails. */
    method BulkUpsert(versions: seq<Version>, uuid: nat -> string, now: int, failure: Option<nat>, commitFails: bool)
      returns (r: Result)
      modifies this
      ensures r.Failed? <==> versions != [] && (commitFails || (failure.Some? && failure.value < |versions|))
      ensures r.Failed? ==> rows == old(rows)
      ensures r.Written? ==> rows == Applied(old(rows), versions, |versions|, uuid, now)
      ensures r.Written? ==> r.count == |rows| - |old(rows)|
    {
      if |versions| == 0 {
        return Written(0);
      }
      var tx, newCount := rows, 0;
      var n := 0;
      while n < |versions|
        invariant 0 <= n <= |versions|
        invariant failure.None? || failure.value >= n
        invariant rows == old(rows) && tx == Applied(rows, versions, n, uuid, now)
        invariant newCount == |tx| - |rows|
      {
        var v := versions[n];
        if v.key !in tx {
          newCount := newCount + 1;
        }
        if failure == Some(n) {
          return Failed;
        }
        UpsertSize(tx, v, uuid(n), now);
        tx := Upsert(tx, v, uuid(n), now);
        n := n + 1;
      }
      if commitFails {
        return Failed;
      }
      rows := tx;
      return Written(newCount);
    }
  }

  lemma {:induction false} LastExists(batch: seq<Version>, k: Key) returns (i: int)
    requires Mentions(batch, k)
    ensures IsLast(batch, i) && batch[i].key == k
  {
    var n := |batch| - 1;
    if batch[n].key == k {
      i := n;
    } else {
      var j :| 0 <= j < |batch| && batch[j].key == k;
      assert batch[..n][j].key == k;
      i := LastExists(batch[..n], k);
      assert forall m | i < m < n :: batch[..n][m] == batch[m];
      assert batch[i] == batch[..n][i];
    }
  }

  lemma {:induction false} FirstExists(batch: seq<Version>, k: Key) returns (i: int)
    requires Mentions(batch, k)
    ensures IsFirst(batch, i) && batch[i].key == k
  {
    if batch[0].key == k {
      i := 0;
    } else {
      var j :| 0 <= j < |batch| && batch[j].key == k;
      assert batch[1..][j - 1].key == k;
      var m := FirstExists(batch[1..], k);
      i := m + 1;
      forall x | 0 <= x < i
        ensures batch[x].key != batch[i].key
      {
        if x > 0 {
          assert batch[1..][x - 1] == batch[x];
        }
      }
    }
  }

  /** The statement determines the table: no other outcome is possible. */
  lemma UpsertedIsDetermined(rows: Rows, batch: seq<Version>, a: Rows, b: Rows, uuid: nat -> string, now: int)
    requires Upserted(rows, batch, a, uuid, now) && Upserted(rows, batch, b, uuid, now)
    ensures a == b
  {
    forall k
      ensures k in a <==> k in b
      ensures k in a ==> a[k] == b[k]
    {
      if Mentions(batch, k) {
        var i := LastExists(batch, k);
        var j := FirstExists(batch, k);
      }
    }
  }

  lemma AppliedAll(rows: Rows, batch: seq<Version>, uuid: nat -> string, now: int)
    ensures Upserted(rows, batch, Applied(rows, batch, |batch|, uuid, now), uuid, now)
  {
    AppliedMeaning(rows, batch, |batch|, uuid, now);
    assert batch[..|batch|] == batch;
  }

  lemma UpsertTwice(
    rows: Rows, batch: seq<Version>, once: Rows, twice: Rows, uuid: nat -> string, now: int,
    uuid2: nat -> string, later: int)
    requires Upserted(rows, batch, once, uuid, now) && Upserted(once, batch, twice, uuid2, later)
    ensures twice == once
  {
    forall k
      ensures k in twice <==> k in once
      ensures k in once ==> twice[k] == once[k]
    {
      if Mentions(batch, k) {
        var i := LastExists(batch, k);
      }
    }
  }

  /** Writing the same batch again finds nothing new and changes nothing. */
  lemma WriteTwice(rows: Rows, batch: seq<Version>, uuid: nat -> string, now: int, uuid2: nat -> string, later: int)
    ensures var once := Applied(rows, batch, |batch|, uuid, now);
            Applied(once, batch, |batch|, uuid2, later) == once
  {
    var once := Applied(rows, batch, |batch|, uuid, now);
    AppliedAll(rows, batch, uuid, now);
    AppliedAll(once, batch, uuid2, later);
    UpsertTwice(rows, batch, once, Applied(once, batch, |batch|, uuid2, later), uuid, now, uuid2, later);
  }
}
