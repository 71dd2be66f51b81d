/** Task records and the board's columns as values: how a card is found by id,
    the specification of every edit of the board, and the lemmas that say each
    edit keeps task ids unique and every task in exactly one column. */
module Tasks {
  import opened Wrappers

  /** The five fields the task form edits. */
  datatype TaskData = TaskData(title: string, description: string, priority: string,
                               dueDate: string, responsible: string)

  /** A task card, reduced to the record that is saved for it. */
  datatype Task = Task(id: string, title: string, description: string, priority: string,
                       dueDate: string, responsible: string)

  /** The place of a card: column index and index inside that column. */
  datatype Pos = Pos(col: nat, idx: nat)

  /** The cards of every column, in column order and, inside a column, in card order. */
  type Columns = seq<seq<Task>>

  function MakeTask(id: string, d: TaskData): Task
  {
    Task(id, d.title, d.description, d.priority, d.dueDate, d.responsible)
  }

  function DataOf(t: Task): TaskData
  {
    TaskData(t.title, t.description, t.priority, t.dueDate, t.responsible)
  }

  function Ids(col: seq<Task>): (r: seq<string>)
    ensures |r| == |col| && forall i :: 0 <= i < |col| ==> r[i] == col[i].id
  {
    seq(|col|, i requires 0 <= i < |col| => col[i].id)
  }

  function IdCols(cols: Columns): seq<seq<string>>
  {
    seq(|cols|, c requires 0 <= c < |cols| => Ids(cols[c]))
  }

  predicate Distinct(s: seq<string>)
  {
    forall i, j :: 0 <= i < j < |s| ==> s[i] != s[j]
  }

  function Without<T>(s: seq<T>, p: nat): seq<T>
    requires p < |s|
  {
    s[..p] + s[p + 1..]
  }

  /** The first index at or after `from` that holds `k`. */
  function IndexFrom(s: seq<string>, k: string, from: nat): (r: Option<nat>)
    requires from <= |s|
    decreases |s| - from
    ensures r.Some? ==> from <= r.value < |s| && s[r.value] == k
    ensures r.Some? ==> forall j :: from <= j < r.value ==> s[j] != k
    ensures r.None? <==> forall j :: from <= j < |s| ==> s[j] != k
  {
    if from == |s| then None
    else if s[from] == k then Some(from)
    else IndexFrom(s, k, from + 1)
  }

  function IndexOf(s: seq<string>, k: string): Option<nat>
  {
    IndexFrom(s, k, 0)
  }

  /** The first card with id `id` in document order, searching the columns from
      `from` on: what `document.getElementById` returns for a task id. */
  function LocateFrom(cols: Columns, id: string, from: nat): (r: Option<Pos>)
    requires from <= |cols|
    decreases |cols| - from
    ensures r.Some? ==> from <= r.value.col < |cols| && r.value.idx < |cols[r.value.col]|
                        && cols[r.value.col][r.value.idx].id == id
    ensures r.Some? ==> forall c :: from <= c < r.value.col ==> id !in Ids(cols[c])
    ensures r.Some? ==> forall j :: 0 <= j < r.value.idx ==> cols[r.value.col][j].id != id
    ensures r.None? <==> forall c :: from <= c < |cols| ==> id !in Ids(cols[c])
  {
    if from == |cols| then None
    else match IndexOf(Ids(cols[from]), id)
      case Some(p) => Some(Pos(from, p))
      case None => LocateFrom(cols, id, from + 1)
  }

  function Locate(cols: Columns, id: string): Option<Pos>
  {
    LocateFrom(cols, id, 0)
  }

  // ---------------------------------------------------------------------------
  // Counting cards and ids

  /** Everything held by the columns, counted with multiplicity. */
  ghost function Bag<T>(s: seq<seq<T>>): multiset<T>
    decreases |s|
  {
    if s == [] then multiset{} else Bag(s[..|s| - 1]) + multiset(s[|s| - 1])
  }

  ghost function IdBag(cols: Columns): multiset<string>
  {
    Bag(IdCols(cols))
  }

  /** No two cards on the board share an id. */
  ghost predicate Unique(cols: Columns)
  {
    forall id :: IdBag(cols)[id] <= 1
  }

  /** The bag is what one column holds plus what all the others hold. */
  lemma {:induction false} BagSplit<T>(s: seq<seq<T>>, c: nat)
    requires c < |s|
    ensures Bag(s) == Bag(s[c := []]) + multiset(s[c])
  {
    var n := |s| - 1;
    var t := s[c := []];
    assert Bag(s) == Bag(s[..n]) + multiset(s[n]);
    assert Bag(t) == Bag(t[..n]) + multiset(t[n]);
    if c == n {
      assert t[..n] == s[..n];
    } else {
      var u := s[..n];
      assert t[..n] == u[c := []];
      assert t[n] == s[n];
      BagSplit(u, c);
      assert u[c] == s[c];
    }
  }

  /** Something is in the bag exactly when some column holds it. */
  lemma {:induction false} BagHas<T>(s: seq<seq<T>>, x: T)
    ensures x in Bag(s) <==> exists c :: 0 <= c < |s| && x in s[c]
  {
    if s != [] {
      var n := |s| - 1;
      BagHas(s[..n], x);
      if x !in s[n] && exists c :: 0 <= c < |s| && x in s[c] {
        var c :| 0 <= c < |s| && x in s[c];
        assert x in s[..n][c];
      }
      if exists c :: 0 <= c < n && x in s[..n][c] {
        var c :| 0 <= c < n && x in s[..n][c];
        assert x in s[c];
      }
    }
  }

  lemma IdColsUpdate(cols: Columns, c: nat, col: seq<Task>)
    requires c < |cols|
    ensures IdCols(cols[c := col]) == IdCols(cols)[c := Ids(col)]
  {
  }

  /** Replacing column `c`: the cards and the ids on the other columns stay. */
  lemma ColumnSwap(cols: Columns, c: nat, col: seq<Task>)
    requires c < |cols|
    ensures Bag(cols) == Bag(cols[c := []]) + multiset(cols[c])
    ensures Bag(cols[c := col]) == Bag(cols[c := []]) + multiset(col)
    ensures IdBag(cols) == IdBag(cols[c := []]) + multiset(Ids(cols[c]))
    ensures IdBag(cols[c := col]) == IdBag(cols[c := []]) + multiset(Ids(col))
  {
    BagSplit(cols, c);
    BagSplit(cols[c := col], c);
    assert cols[c := col][c := []] == cols[c := []];
    IdColsUpdate(cols, c, []);
    IdColsUpdate(cols, c, col);
    assert IdCols(cols)[c := []] == IdCols(cols)[c := Ids([])];
    BagSplit(IdCols(cols), c);
    BagSplit(IdCols(cols[c := col]), c);
    assert IdCols(cols[c := col])[c := []] == IdCols(cols)[c := []];
  }

  lemma WithoutParts<T>(s: seq<T>, p: nat)
    requires p < |s|
    ensures multiset(Without(s, p)) + multiset{s[p]} == multiset(s)
  {
    assert s == s[..p] + [s[p]] + s[p + 1..];
  }

  lemma IdsWithout(s: seq<Task>, p: nat)
    requires p < |s|
    ensures Ids(Without(s, p)) == Without(Ids(s), p)
  {
  }

  /** The id lookup fails exactly when no card carries the id. */
  lemma LocateBag(cols: Columns, id: string)
    ensures Locate(cols, id).None? <==> id !in IdBag(cols)
  {
    BagHas(IdCols(cols), id);
    assert forall c :: 0 <= c < |cols| ==> IdCols(cols)[c] == Ids(cols[c]);
    if id in IdBag(cols) {
      var c :| 0 <= c < |cols| && id in IdCols(cols)[c];
      assert id in Ids(cols[c]);
    }
  }

  lemma TwoPlaces<T>(s: seq<T>, i: nat, j: nat)
    requires i < j < |s| && s[i] == s[j]
    ensures multiset(s)[s[i]] >= 2
  {
    assert s == s[..j] + s[j..];
    assert s[..j][i] == s[i];
    assert s[j..][0] == s[i];
  }

  /** A column's count of `x` is at most the board's. */
  lemma BagCovers<T>(s: seq<seq<T>>, c: nat, x: T)
    requires c < |s|
    ensures Bag(s)[x] >= multiset(s[c])[x]
  {
    BagSplit(s, c);
  }

  /** Two different columns holding `x` make it count twice. */
  lemma BagTwoColumns<T>(s: seq<seq<T>>, c1: nat, c2: nat, x: T)
    requires c1 < |s| && c2 < |s| && c1 != c2 && x in s[c1] && x in s[c2]
    ensures Bag(s)[x] >= 2
  {
    BagSplit(s, c1);
    BagCovers(s[c1 := []], c2, x);
    assert s[c1 := []][c2] == s[c2];
    assert x in multiset(s[c1]) && x in multiset(s[c2]);
  }

  /** With unique ids, a task id sits in exactly one column at exactly one place. */
  lemma ExactlyOnePlace(cols: Columns, id: string, c1: nat, p1: nat, c2: nat, p2: nat)
    requires Unique(cols)
    requires c1 < |cols| && p1 < |cols[c1]| && cols[c1][p1].id == id
    requires c2 < |cols| && p2 < |cols[c2]| && cols[c2][p2].id == id
    ensures c1 == c2 && p1 == p2
  {
    var s := IdCols(cols);
    assert s[c1][p1] == id && s[c2][p2] == id;
    assert IdBag(cols)[id] <= 1;
    if c1 != c2 {
      BagTwoColumns(s, c1, c2, id);
    } else if p1 != p2 {
      if p1 < p2 { TwoPlaces(s[c1], p1, p2); } else { TwoPlaces(s[c1], p2, p1); }
      BagCovers(s, c1, id);
    }
  }

  // ---------------------------------------------------------------------------
  // The edits of the board

  /** `createNewTask`: the new card goes to the end of column `c`. */
  function Created(cols: Columns, c: nat, t: Task): Columns
    requires c < |cols|
  {
    cols[c := cols[c] + [t]]
  }

  /** `updateTask`: the five fields of the card found by id are replaced. */
  function Updated(cols: Columns, id: string, d: TaskData): Columns
  {
    match Locate(cols, id)
    case None => cols
    case Some(pos) => cols[pos.col := cols[pos.col][pos.idx := MakeTask(id, d)]]
  }

  /** `deleteTask`: the card found by id leaves its column. */
  function Removed(cols: Columns, id: string): Columns
  {
    match Locate(cols, id)
    case None => cols
    case Some(pos) => cols[pos.col := Without(cols[pos.col], pos.idx)]
  }

  /** The `dragover` move: `appendChild` takes card `p` of column `src` out of
      its column and puts it at the end of column `dst`. */
  function Moved(cols: Columns, src: nat, p: nat, dst: nat): Columns
    requires src < |cols| && p < |cols[src]| && dst < |cols|
  {
    var rest := cols[src := Without(cols[src], p)];
    rest[dst := rest[dst] + [cols[src][p]]]
  }

  lemma UniqueAfterAdd(a: Columns, b: Columns, x: string)
    requires Unique(a) && x !in IdBag(a) && IdBag(b) == IdBag(a) + multiset{x}
    ensures Unique(b)
  {
    forall id ensures IdBag(b)[id] <= 1 {
      assert IdBag(a)[id] <= 1;
    }
  }

  lemma UniqueAfterRemove(a: Columns, b: Columns, x: string)
    requires Unique(a) && IdBag(b) + multiset{x} == IdBag(a)
    ensures Unique(b) && x !in IdBag(b)
  {
    forall id ensures IdBag(b)[id] <= 1 {
      assert IdBag(a)[id] <= 1;
    }
    assert IdBag(a)[x] <= 1;
  }

  lemma CreatedSpec(cols: Columns, c: nat, t: Task)
    requires c < |cols|
    ensures |Created(cols, c, t)| == |cols|
    ensures Created(cols, c, t)[c] == cols[c] + [t]
    ensures forall i :: 0 <= i < |cols| && i != c ==> Created(cols, c, t)[i] == cols[i]
    ensures Bag(Created(cols, c, t)) == Bag(cols) + multiset{t}
    ensures IdBag(Created(cols, c, t)) == IdBag(cols) + multiset{t.id}
    ensures Unique(cols) && t.id !in IdBag(cols) ==> Unique(Created(cols, c, t))
  {
    var r := Created(cols, c, t);
    ColumnSwap(cols, c, cols[c] + [t]);
    assert Ids(cols[c] + [t]) == Ids(cols[c]) + [t.id];
    assert multiset(Ids(cols[c] + [t])) == multiset(Ids(cols[c])) + multiset{t.id};
    assert IdBag(r) == IdBag(cols) + multiset{t.id};
    if Unique(cols) && t.id !in IdBag(cols) {
      UniqueAfterAdd(cols, r, t.id);
    }
  }

  lemma UpdatedSpec(cols: Columns, id: string, d: TaskData)
    ensures Locate(cols, id).None? ==> Updated(cols, id, d) == cols
    ensures |Updated(cols, id, d)| == |cols|
    ensures forall c :: 0 <= c < |cols| ==> Ids(Updated(cols, id, d)[c]) == Ids(cols[c])
    ensures IdBag(Updated(cols, id, d)) == IdBag(cols)
    ensures Unique(Updated(cols, id, d)) <==> Unique(cols)
  {
    var r := Updated(cols, id, d);
    if Locate(cols, id).Some? {
      var pos := Locate(cols, id).value;
      assert Ids(r[pos.col]) == Ids(cols[pos.col]);
    }
    assert IdCols(r) == IdCols(cols);
  }

  /** The card found by id gets the new data and keeps its id and its place;
      every other card is untouched. */
  lemma UpdatedAt(cols: Columns, id: string, d: TaskData, c: nat, p: nat)
    requires Locate(cols, id) == Some(Pos(c, p))
    ensures c < |cols| && p < |cols[c]| && cols[c][p].id == id
    ensures Updated(cols, id, d)[c][p].id == id && DataOf(Updated(cols, id, d)[c][p]) == d
    ensures forall i, j :: 0 <= i < |cols| && 0 <= j < |cols[i]| && (i != c || j != p) ==>
              j < |Updated(cols, id, d)[i]| && Updated(cols, id, d)[i][j] == cols[i][j]
  {
  }

  lemma RemovedAt(cols: Columns, id: string, c: nat, p: nat)
    requires Locate(cols, id) == Some(Pos(c, p))
    ensures c < |cols| && p < |cols[c]| && cols[c][p].id == id
    ensures |Removed(cols, id)| == |cols|
    ensures Removed(cols, id)[c] == cols[c][..p] + cols[c][p + 1..]
    ensures forall i :: 0 <= i < |cols| && i != c ==> Removed(cols, id)[i] == cols[i]
    ensures Bag(Removed(cols, id)) + multiset{cols[c][p]} == Bag(cols)
    ensures IdBag(Removed(cols, id)) + multiset{id} == IdBag(cols)
    ensures Unique(cols) ==> Unique(Removed(cols, id)) && Locate(Removed(cols, id), id).None?
  {
    var r := Removed(cols, id);
    assert r == cols[c := Without(cols[c], p)];
    BagsAfterTakeOut(cols, c, p);
    if Unique(cols) {
      UniqueAfterRemove(cols, r, id);
      LocateBag(r, id);
    }
  }

  lemma RemovedMissing(cols: Columns, id: string)
    requires Locate(cols, id).None?
    ensures Removed(cols, id) == cols
  {
  }

  /** Where every card is after the move. */
  lemma MovedShape(cols: Columns, src: nat, p: nat, dst: nat)
    requires src < |cols| && p < |cols[src]| && dst < |cols|
    ensures |Moved(cols, src, p, dst)| == |cols|
    ensures Moved(cols, src, p, dst)[dst] ==
              (if src == dst then Without(cols[src], p) else cols[dst]) + [cols[src][p]]
    ensures src != dst ==> Moved(cols, src, p, dst)[src] == Without(cols[src], p)
    ensures forall i :: 0 <= i < |cols| && i != src && i != dst ==> Moved(cols, src, p, dst)[i] == cols[i]
  {
  }

  /** The move neither loses nor duplicates a card, so ids stay as unique as they were. */
  lemma MovedCounts(cols: Columns, src: nat, p: nat, dst: nat)
    requires src < |cols| && p < |cols[src]| && dst < |cols|
    ensures Bag(Moved(cols, src, p, dst)) == Bag(cols)
    ensures IdBag(Moved(cols, src, p, dst)) == IdBag(cols)
    ensures Unique(Moved(cols, src, p, dst)) <==> Unique(cols)
  {
    var t := cols[src][p];
    var col := cols[src];
    var rest := cols[src := Without(col, p)];
    var r := Moved(cols, src, p, dst);
    assert r == rest[dst := rest[dst] + [t]];
    BagsAfterTakeOut(cols, src, p);
    CreatedSpec(rest, dst, t);
    assert r == Created(rest, dst, t);
  }

  /** Taking card `p` out of column `c` removes exactly it and its id from the bags. */
  lemma BagsAfterTakeOut(cols: Columns, c: nat, p: nat)
    requires c < |cols| && p < |cols[c]|
    ensures Bag(cols[c := Without(cols[c], p)]) + multiset{cols[c][p]} == Bag(cols)
    ensures IdBag(cols[c := Without(cols[c], p)]) + multiset{cols[c][p].id} == IdBag(cols)
  {
    var col := cols[c];
    ColumnSwap(cols, c, Without(col, p));
    WithoutParts(col, p);
    IdsWithout(col, p);
    WithoutParts(Ids(col), p);
    assert Ids(col)[p] == col[p].id;
  }
}
