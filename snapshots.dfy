/** The value stored under the `kanbanTasks` key, as an abstract snapshot:
    what saving a board produces, what loading a snapshot does to a board, and
    the round trip between the two. */
module Snapshots {
  import opened Wrappers
  import opened Tasks

  /** One key of the stored object: a column id and the task records saved under it. */
  datatype Entry = Entry(key: string, records: seq<Task>)

  /** The stored object's keys in enumeration order, each with its records. */
  type Snapshot = seq<Entry>

  /** What `saveTasksToLocalStorage` stores: one entry per column, in board
      order, holding that column's cards in order. */
  function SnapshotOf(ids: seq<string>, cols: Columns): Snapshot
    requires |ids| == |cols|
  {
    seq(|ids|, i requires 0 <= i < |ids| => Entry(ids[i], cols[i]))
  }

  /** The records a load appends to the column with id `k`: those of every
      entry under key `k`, in snapshot order. */
  function Gather(s: Snapshot, k: string): seq<Task>
    decreases |s|
  {
    if s == [] then []
    else Gather(s[..|s| - 1], k) + (if s[|s| - 1].key == k then s[|s| - 1].records else [])
  }

  /** What `loadTasksFromLocalStorage` leaves on a board with columns `ids`:
      every column keeps its cards and gets the records stored under its id
      appended; keys naming no column contribute nothing. */
  function Loaded(ids: seq<string>, cols: Columns, s: Snapshot): Columns
    requires |ids| == |cols|
  {
    seq(|cols|, i requires 0 <= i < |cols| => cols[i] + Gather(s, ids[i]))
  }

  /** The stored value read back, an absent key counting as the empty object. */
  function StoredOrEmpty(stored: Option<Snapshot>): Snapshot
  {
    if stored.Some? then stored.value else []
  }

  /** A board with `n` columns and no cards, as the page starts. */
  function Empties(n: nat): Columns
  {
    seq(n, _ => [])
  }

  lemma {:induction false} GatherAppend(a: Snapshot, b: Snapshot, k: string)
    ensures Gather(a + b, k) == Gather(a, k) + Gather(b, k)
    decreases |b|
  {
    if b == [] {
      assert a + b == a;
    } else {
      var n := |b| - 1;
      assert (a + b)[..|a + b| - 1] == a + b[..n];
      GatherAppend(a, b[..n], k);
    }
  }

  /** Looking a column id up in a saved snapshot gives back that column. */
  lemma {:induction false} GatherSaved(ids: seq<string>, cols: Columns, k: string)
    requires |ids| == |cols| && Distinct(ids)
    ensures forall i :: 0 <= i < |ids| && ids[i] == k ==> Gather(SnapshotOf(ids, cols), k) == cols[i]
    ensures k !in ids ==> Gather(SnapshotOf(ids, cols), k) == []
    decreases |ids|
  {
    if ids != [] {
      var n := |ids| - 1;
      var s := SnapshotOf(ids, cols);
      assert s[..n] == SnapshotOf(ids[..n], cols[..n]);
      assert Distinct(ids[..n]);
      GatherSaved(ids[..n], cols[..n], k);
      if ids[n] == k {
        assert k !in ids[..n];
      } else {
        forall i | 0 <= i < |ids| && ids[i] == k
          ensures Gather(s, k) == cols[i]
        {
          assert i < n && ids[..n][i] == k;
        }
        if k !in ids {
          assert k !in ids[..n];
        }
      }
    }
  }

  /** Saving a board and loading the snapshot into the same columns, empty,
      reproduces the board: every column, every card, in order. */
  lemma RoundTrip(ids: seq<string>, cols: Columns)
    requires |ids| == |cols| && Distinct(ids)
    ensures Loaded(ids, Empties(|ids|), SnapshotOf(ids, cols)) == cols
  {
    forall i | 0 <= i < |ids|
      ensures Loaded(ids, Empties(|ids|), SnapshotOf(ids, cols))[i] == cols[i]
    {
      GatherSaved(ids, cols, ids[i]);
    }
  }

  /** An entry whose key names no column is skipped, wherever it stands. */
  lemma UnknownKeySkipped(ids: seq<string>, cols: Columns, a: Snapshot, e: Entry, b: Snapshot)
    requires |ids| == |cols| && e.key !in ids
    ensures Loaded(ids, cols, a + [e] + b) == Loaded(ids, cols, a + b)
  {
    forall i | 0 <= i < |ids|
      ensures Gather(a + [e] + b, ids[i]) == Gather(a + b, ids[i])
    {
      GatherAppend(a + [e], b, ids[i]);
      GatherAppend(a, [e], ids[i]);
      GatherAppend(a, b, ids[i]);
      assert [e][..0] == [];
    }
  }

  /** Loading an empty snapshot changes nothing. */
  lemma LoadEmpty(ids: seq<string>, cols: Columns)
    requires |ids| == |cols|
    ensures Loaded(ids, cols, []) == cols
  {
    forall i | 0 <= i < |ids| ensures Loaded(ids, cols, [])[i] == cols[i] {
      assert cols[i] + [] == cols[i];
    }
  }

  /** Loading one more entry appends its records to the one column it names. */
  lemma LoadedStep(ids: seq<string>, cols: Columns, s: Snapshot, e: Entry)
    requires |ids| == |cols| && Distinct(ids)
    ensures IndexOf(ids, e.key).None? ==> Loaded(ids, cols, s + [e]) == Loaded(ids, cols, s)
    ensures IndexOf(ids, e.key).Some? ==>
              var c := IndexOf(ids, e.key).value;
              Loaded(ids, cols, s + [e]) == Loaded(ids, cols, s)[c := Loaded(ids, cols, s)[c] + e.records]
  {
    assert (s + [e])[..|s|] == s;
    var before, after := Loaded(ids, cols, s), Loaded(ids, cols, s + [e]);
    forall i | 0 <= i < |ids|
      ensures after[i] == before[i] + (if e.key == ids[i] then e.records else [])
    {
      assert Gather(s + [e], ids[i]) == Gather(s, ids[i]) + (if e.key == ids[i] then e.records else []);
    }
    match IndexOf(ids, e.key)
    case None =>
      forall i | 0 <= i < |ids| ensures after[i] == before[i] {
        assert before[i] + [] == before[i];
      }
    case Some(c) =>
      forall i | 0 <= i < |ids| ensures after[i] == before[c := before[c] + e.records][i] {
        if i != c {
          assert ids[i] != e.key;
          assert before[i] + [] == before[i];
        }
      }
  }
}
