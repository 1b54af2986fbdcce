/** The read side a peer queries (backend/app/crdt/sync.py), without its summary
    cache: the summary, one bucket, a batch of records. */
module Sync {
  import opened Prelude
  import opened Ordering
  import opened Store
  import M = Merkle

  const MAX_FETCH_HASHES: nat := 100

  /** The rows whose hashes are advertised, everywhere or in one workflow. */
  predicate Advertised(row: Row, scope: Option<string>) {
    row.hash.Some? && row.hash.value != "" && row.state == ACTIVE
    && (scope.Some? ==> row.fields.workflowId == scope.value)
  }

  /** _iter_hashes */
  function ActiveHashes(rows: seq<Row>, scope: Option<string>): seq<string> {
    if rows == [] then []
    else
      var last := rows[|rows| - 1];
      ActiveHashes(rows[..|rows| - 1], scope) + if Advertised(last, scope) then [last.hash.value] else []
  }

  function ActiveSet(rows: seq<Row>, scope: Option<string>): set<string> {
    Elems(ActiveHashes(rows, scope))
  }

  function Hashes(rows: seq<Row>): set<string> {
    set row | row in rows && row.hash.Some? :: row.hash.value
  }

  lemma {:induction false} ActiveIn(rows: seq<Row>, scope: Option<string>, h: string)
    ensures h in ActiveSet(rows, scope) <==>
      exists i :: 0 <= i < |rows| && Advertised(rows[i], scope) && rows[i].hash == Some(h)
  {
    if rows != [] {
      var front, last := rows[..|rows| - 1], rows[|rows| - 1];
      ActiveIn(front, scope, h);
      assert h in ActiveSet(rows, scope) <==>
        h in ActiveSet(front, scope) || (Advertised(last, scope) && last.hash == Some(h));
      assert forall i :: 0 <= i < |front| ==> rows[i] == front[i];
      assert rows[|front|] == last;
    }
  }

  /** The advertised hashes are those of the rows that are ACTIVE, have an address and
      belong to the workflow asked for, if one is. */
  lemma ActiveExactly(rows: seq<Row>, scope: Option<string>, h: string)
    ensures h in ActiveSet(rows, scope) <==>
      exists i :: 0 <= i < |rows| && rows[i].hash == Some(h) && h != "" && rows[i].state.ACTIVE?
                  && (scope.None? || rows[i].fields.workflowId == scope.value)
  {
    hide ActiveSet;
    ActiveIn(rows, scope, h);
  }

  function Served(rows: seq<Row>, hashes: seq<string>): (r: seq<Row>)
    ensures forall i :: 0 <= i < |r| ==> r[i].hash.Some?
  {
    if rows == [] then []
    else
      var last := rows[|rows| - 1];
      Served(rows[..|rows| - 1], hashes)
      + if last.hash.Some? && last.hash.value in hashes && last.state != TOMBSTONED then [last] else []
  }

  /** Each row asked for is served as often as it is stored, and no other. */
  lemma {:induction false} ServedExactly(rows: seq<Row>, hashes: seq<string>, row: Row)
    ensures multiset(Served(rows, hashes))[row]
         == if row.hash.Some? && row.hash.value in hashes && !row.state.TOMBSTONED? then multiset(rows)[row] else 0
    ensures row in Served(rows, hashes)
       <==> (row in rows && row.hash.Some? && row.hash.value in hashes && row.state != TOMBSTONED)
  {
    if rows != [] {
      assert rows == rows[..|rows| - 1] + [rows[|rows| - 1]];
      ServedExactly(rows[..|rows| - 1], hashes, row);
    }
  }

  /** fetch_records; None is TooManyHashesRequested. */
  function ServeRecords(rows: seq<Row>, hashes: seq<string>): Option<seq<Row>> {
    if hashes == [] then Some([])
    else if |hashes| > MAX_FETCH_HASHES then None
    else Some(Served(rows, hashes))
  }

  /** sorted(bucket); None is the ValueError on an index out of range. */
  ghost function BucketListing(rows: seq<Row>, scope: Option<string>, i: int): Option<seq<string>> {
    if 0 <= i < M.BUCKET_COUNT then Some(SortedSet(M.BucketSet(ActiveSet(rows, scope), i))) else None
  }

  class SyncService {
    const store: CrdtStore

    constructor (store: CrdtStore)
      ensures this.store == store
    {
      this.store := store;
    }

    method Summarise(scope: Option<string>) returns (summary: M.Summary)
      ensures summary == M.Summarise(store.world.sha, ActiveSet(store.rows, scope))
    {
      summary := M.SummariseHashes(store.world.sha, ActiveHashes(store.rows, scope));
    }

    method BucketHashes(index: int, scope: Option<string>) returns (r: Option<seq<string>>)
      ensures r == BucketListing(store.rows, scope, index)
    {
      hide M.BucketForHash;
      if index < 0 || index >= M.BUCKET_COUNT {
        return None;
      }
      var all := ActiveHashes(store.rows, scope);
      var hashes: set<string> := {};
      for n := 0 to |all|
        invariant hashes == M.BucketSet(Elems(all[..n]), index)
      {
        assert all[..n + 1] == all[..n] + [all[n]];
        assert Elems(all[..n + 1]) == Elems(all[..n]) + {all[n]};
        if M.BucketForHash(all[n]) == Some(index) {
          hashes := hashes + {all[n]};
        }
      }
      assert all[..|all|] == all;
      r := Some(SortedSet(hashes));
    }

    method FetchRecords(hashes: seq<string>) returns (r: Option<seq<Row>>)
      ensures r == ServeRecords(store.rows, hashes)
    {
      if hashes == [] {
        return Some([]);
      }
      if |hashes| > MAX_FETCH_HASHES {
        return None;
      }
      r := Some(Served(store.rows, hashes));
    }
  }
}
