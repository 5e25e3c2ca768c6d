/** Seeding the AUTOINCREMENT counters of a database's tables, so that ids of rows deleted in the
    past are not handed out again. A counter is a table's row in sqlite_sequence.
 */
module IdSequences {
  import opened Options

  const MAX_JUMP := 1_000_000

  // Row ids and the counter, if there is one. Row ids are positive, and SQLite keeps the
  // counter at or above the largest of them.
  datatype Table = Table(rows: seq<int>, counter: Option<int>) {
    predicate Valid() {
      && (forall r :: r in rows ==> 0 < r <= Mark())
      && (counter.Some? ==> 0 <= counter.value)
    }

    function Mark(): int { if counter.None? then 0 else counter.value }
  }

  // SELECT max(id), or 0 for an empty table.
  function MaxId(rows: seq<int>): int {
    if rows == [] then 0
    else
      var n := |rows| - 1;
      if n == 0 || rows[n] > MaxId(rows[..n]) then rows[n] else MaxId(rows[..n])
  }

  lemma {:induction false} MaxIdIsMax(rows: seq<int>)
    ensures rows != [] ==> MaxId(rows) in rows
    ensures forall r :: r in rows ==> r <= MaxId(rows)
  {
    if rows != [] {
      var n := |rows| - 1;
      MaxIdIsMax(rows[..n]);
      assert forall r :: r in rows <==> r in rows[..n] || r == rows[n];
    }
  }

  // A recorded id no further above the table's largest id than a million.
  predicate Believable(id: int, highestRow: int) { id <= highestRow + 1_000_000 }

  // floor is the highest of the table's own ids and the believable recorded ones.
  ghost predicate IsFloor(rows: seq<int>, recorded: seq<int>, floor: int) {
    var top := MaxId(rows);
    && top <= floor && (floor == top || (floor in recorded && Believable(floor, top)))
    && forall id :: id in recorded && Believable(id, top) ==> id <= floor
  }

  // Where ids of a table are recorded: columns that refer to it, the metadata of events and the
  // messages of a fixed form.
  datatype Sources = Sources(columns: seq<seq<int>>, metadata: seq<int>, messages: seq<int>)

  // SELECT max(column), if that is an id.
  function ColumnMax(column: seq<int>): seq<int> { if MaxId(column) > 0 then [MaxId(column)] else [] }

  function ColumnMaxima(columns: seq<seq<int>>): seq<int> {
    if columns == [] then []
    else ColumnMaxima(columns[..|columns| - 1]) + ColumnMax(columns[|columns| - 1])
  }

  function Positive(ids: seq<int>): (r: seq<int>)
    ensures forall id :: id in r <==> id in ids && id > 0
  {
    if ids == [] then []
    else
      var n := |ids| - 1;
      assert forall id :: id in ids <==> id in ids[..n] || id == ids[n];
      Positive(ids[..n]) + if ids[n] > 0 then [ids[n]] else []
  }

  // The ids gathered: one for each column, every one of the other sources.
  function Gathered(src: Sources): seq<int> {
    ColumnMaxima(src.columns) + Positive(src.metadata) + src.messages
  }

  lemma ColumnMaximaMore(columns: seq<seq<int>>, i: nat)
    requires i < |columns|
    ensures ColumnMaxima(columns[..i + 1]) == ColumnMaxima(columns[..i]) + ColumnMax(columns[i])
  {
    assert columns[..i + 1][..i] == columns[..i];
  }

  lemma PositiveMore(ids: seq<int>, i: nat)
    requires i < |ids|
    ensures Positive(ids[..i + 1]) == Positive(ids[..i]) + if ids[i] > 0 then [ids[i]] else []
  {
    assert ids[..i + 1][..i] == ids[..i];
  }

  /** The ids of a table gathered from its sources. */
  method IdsRecordedFor(src: Sources) returns (ids: seq<int>)
    ensures ids == Gathered(src)
  {
    hide ColumnMaxima, Positive, MaxId;
    ids := [];
    assert ColumnMaxima(src.columns[..0]) == [] && Positive(src.metadata[..0]) == [] by { NothingGathered(src); }
    for i := 0 to |src.columns|
      invariant ids == ColumnMaxima(src.columns[..i])
    {
      ColumnMaximaMore(src.columns, i);
      var value := MaxId(src.columns[i]);
      if value > 0 { ids := ids + [value]; }
    }
    assert src.columns[..|src.columns|] == src.columns;
    ghost var maxima := ids;
    for i := 0 to |src.metadata|
      invariant ids == maxima + Positive(src.metadata[..i])
    {
      PositiveMore(src.metadata, i);
      if src.metadata[i] > 0 { ids := ids + [src.metadata[i]]; }
    }
    assert src.metadata[..|src.metadata|] == src.metadata;
    ids := ids + src.messages;
  }

  lemma NothingGathered(src: Sources)
    ensures ColumnMaxima(src.columns[..0]) == [] && Positive(src.metadata[..0]) == []
  {}

  class Database {
    var tables: map<string, Table>

    ghost predicate Valid()
      reads this
    {
      forall t :: t in tables ==> tables[t].Valid()
    }

    /** The highest id of a table, in the table or believably recorded elsewhere. */
    method HighestKnownId(name: string, recorded: seq<int>) returns (highest: int)
      requires name in tables
      ensures IsFloor(tables[name].rows, recorded, highest)
    {
      var highestRow := MaxId(tables[name].rows);
      var ceiling := highestRow + MAX_JUMP;
      highest := highestRow;
      for i := 0 to |recorded|
        invariant IsFloor(tables[name].rows, recorded[..i], highest)
      {
        assert forall id :: id in recorded[..i + 1] <==> id in recorded[..i] || id == recorded[i];
        if recorded[i] > ceiling { continue; }
        if recorded[i] > highest { highest := recorded[i]; }
      }
      assert recorded[..|recorded|] == recorded;
    }

    /** Raise a counter to at least the floor: UPDATE to the maximum, or INSERT where there is
        no counter yet and something to record. No other table changes. */
    method SeedSequence(name: string, floor: int)
      requires name in tables
      modifies this
      ensures tables == old(tables)[name := Seeded(old(tables)[name], floor)]
    {
      var t := tables[name];
      if t.counter.Some? {
        tables := tables[name := t.(counter := Some(if t.counter.value < floor then floor else t.counter.value))];
        return;
      }
      assert tables[name := t] == tables;
      if floor != 0 { tables := tables[name := t.(counter := Some(floor))]; }
    }

    /** The seeding of every listed table, after the row copy that set each counter to the
        table's largest id. */
    method Upgrade(names: seq<string>, sources: string -> Sources)
      requires Valid() && (forall n :: n in names ==> n in tables)
      requires forall n :: n in names ==> tables[n].Mark() == MaxId(tables[n].rows)
      modifies this
      ensures Valid() && tables.Keys == old(tables).Keys
      ensures forall n :: n in names ==>
                && tables[n].rows == old(tables)[n].rows
                && IsFloor(tables[n].rows, Gathered(sources(n)), tables[n].Mark())
      ensures forall n :: n in tables && n !in names ==> tables[n] == old(tables)[n]
    {
      hide IsFloor, Gathered;
      for i := 0 to |names|
        invariant Valid() && tables.Keys == old(tables).Keys
        invariant forall n :: n in tables ==> tables[n].rows == old(tables)[n].rows
        invariant forall n :: n in names[..i] ==> IsFloor(tables[n].rows, Gathered(sources(n)), tables[n].Mark())
        invariant forall n :: n in tables && n !in names[..i] ==> tables[n] == old(tables)[n]
      {
        var name := names[i];
        assert forall n :: n in names[..i + 1] <==> n in names[..i] || n == name;
        var recorded := IdsRecordedFor(sources(name));
        var floor := HighestKnownId(name, recorded);
        SeededIsFloor(tables[name], recorded, floor);
        SeedSequence(name, floor);
      }
      assert names[..|names|] == names;
    }
  }

  function Seeded(t: Table, floor: int): Table {
    if t.Mark() < floor || (t.counter.None? && floor != 0) then t.(counter := Some(floor)) else t
  }

  // Seeding twice with the same records is seeding once: the counter ends at the floor.
  lemma SeededIsFloor(t: Table, recorded: seq<int>, floor: int)
    requires t.Valid() && IsFloor(t.rows, recorded, floor)
    requires t.Mark() == MaxId(t.rows) || IsFloor(t.rows, recorded, t.Mark())
    ensures Seeded(t, floor).Valid() && Seeded(t, floor).rows == t.rows && Seeded(t, floor).Mark() == floor
  {
    MaxIdIsMax(t.rows);
  }

  // ---------------------------------------------------------------------------------------
  // Later inserts and deletes
  // ---------------------------------------------------------------------------------------

  datatype Op = Insert | Delete(id: int)

  function Without(rows: seq<int>, id: int): (r: seq<int>)
    ensures forall x :: x in r <==> x in rows && x != id
  {
    if rows == [] then []
    else
      var n := |rows| - 1;
      assert forall x :: x in rows <==> x in rows[..n] || x == rows[n];
      Without(rows[..n], id) + if rows[n] == id then [] else [rows[n]]
  }

  // AUTOINCREMENT hands out one more than the largest id ever used.
  function Step(t: Table, op: Op): Table {
    match op
    case Insert => Table(t.rows + [t.Mark() + 1], Some(t.Mark() + 1))
    case Delete(id) => t.(rows := Without(t.rows, id))
  }

  function Run(t: Table, ops: seq<Op>): Table {
    if ops == [] then t else Step(Run(t, ops[..|ops| - 1]), ops[|ops| - 1])
  }

  // The ids handed out, in order.
  function NewIds(t: Table, ops: seq<Op>): seq<int> {
    if ops == [] then []
    else
      NewIds(t, ops[..|ops| - 1]) + if ops[|ops| - 1].Insert? then [Run(t, ops[..|ops| - 1]).Mark() + 1] else []
  }

  lemma {:induction false} IdsCountUp(t: Table, ops: seq<Op>)
    requires t.Valid()
    ensures Run(t, ops).Valid() && Run(t, ops).Mark() == t.Mark() + |NewIds(t, ops)|
    ensures forall i :: 0 <= i < |NewIds(t, ops)| ==> NewIds(t, ops)[i] == t.Mark() + 1 + i
  {
    if ops != [] { IdsCountUp(t, ops[..|ops| - 1]); }
  }

  /** After the migration, over any later run of inserts and deletes: no id is handed out twice,
      none is that of a row that existed, and none is one that was gathered, unless it was more
      than a million above the table's largest id. The seed itself is never further than that
      above it. */
  lemma IdsAreNeverReused(t: Table, gathered: seq<int>, ops: seq<Op>)
    requires t.Valid() && IsFloor(t.rows, gathered, t.Mark())
    ensures t.Mark() <= MaxId(t.rows) + 1_000_000
    ensures forall i, j :: 0 <= i < j < |NewIds(t, ops)| ==> NewIds(t, ops)[i] != NewIds(t, ops)[j]
    ensures forall id :: id in NewIds(t, ops) ==> id !in t.rows && (id in gathered ==> !Believable(id, MaxId(t.rows)))
  {
    IdsCountUp(t, ops);
  }

  /** One gathered id raises the seed when it is above the table's largest id by a million at the
      most, and is ignored above that. */
  lemma OneGatheredId(rows: seq<int>, id: int, floor: int)
    requires IsFloor(rows, [id], floor)
    ensures floor == if MaxId(rows) < id && id - MaxId(rows) <= 1_000_000 then id else MaxId(rows)
  {
    hide MaxId;
    assert id in [id];
  }

  // ---------------------------------------------------------------------------------------
  // Recorded ids that are not gathered
  // ---------------------------------------------------------------------------------------

  // The id is recorded in one of the sources.
  ghost predicate Recorded(src: Sources, id: int) {
    (exists i :: 0 <= i < |src.columns| && id in src.columns[i]) || id in src.metadata || id in src.messages
  }

  // Every believable id of every column is at most the table's largest id or a believable
  // gathered one.
  ghost predicate Covered(rows: seq<int>, src: Sources) {
    var top := MaxId(rows);
    forall i, id :: 0 <= i < |src.columns| && id in src.columns[i] && Believable(id, top) ==>
      id <= top || exists g :: g in Gathered(src) && Believable(g, top) && id <= g
  }

  // No run of inserts and deletes hands out a believable recorded id.
  ghost predicate NeverHandedOut(t: Table, src: Sources) {
    forall ops, id :: Recorded(src, id) && Believable(id, MaxId(t.rows)) ==> id !in NewIds(t, ops)
  }

  function Inserts(n: nat): seq<Op> { seq(n, _ => Insert) }

  lemma {:induction false} InsertsGive(t: Table, n: nat)
    ensures |NewIds(t, Inserts(n))| == n
  {
    if n > 0 {
      assert Inserts(n)[..n - 1] == Inserts(n - 1);
      InsertsGive(t, n - 1);
    }
  }

  lemma UncoveredIsHandedOut(t: Table, id: int)
    requires t.Valid() && id > t.Mark()
    ensures id in NewIds(t, Inserts(id - t.Mark()))
  {
    var n := id - t.Mark();
    InsertsGive(t, n);
    IdsCountUp(t, Inserts(n));
    assert NewIds(t, Inserts(n))[n - 1] == id;
  }

  lemma CoveredIsBelow(t: Table, src: Sources, id: int)
    requires t.Valid() && IsFloor(t.rows, Gathered(src), t.Mark()) && Covered(t.rows, src)
    requires Recorded(src, id) && Believable(id, MaxId(t.rows))
    ensures id <= t.Mark()
  {
    hide ColumnMaxima;
    if id in src.messages || (id in src.metadata && id > 0) {
      assert id in Gathered(src);
    } else if i :| 0 <= i < |src.columns| && id in src.columns[i] {
      assert id <= MaxId(t.rows) || exists g :: g in Gathered(src) && Believable(g, MaxId(t.rows)) && id <= g;
    }
  }

  /** A column gives only its largest id, so an unbelievable one hides the others. No believable
      recorded id is ever handed out exactly when each believable id of a column is at most the
      table's largest id or a believable gathered one. */
  lemma RecordedIdsAreSafe(t: Table, src: Sources)
    requires t.Valid() && IsFloor(t.rows, Gathered(src), t.Mark())
    ensures NeverHandedOut(t, src) <==> Covered(t.rows, src)
  {
    hide NewIds, Gathered, Inserts;
    if Covered(t.rows, src) {
      forall ops, id | Recorded(src, id) && Believable(id, MaxId(t.rows)) ensures id !in NewIds(t, ops) {
        CoveredIsBelow(t, src, id);
        IdsCountUp(t, ops);
      }
    }
    if NeverHandedOut(t, src) {
      var top := MaxId(t.rows);
      forall i, id | 0 <= i < |src.columns| && id in src.columns[i] && Believable(id, top)
        ensures id <= top || exists g :: g in Gathered(src) && Believable(g, top) && id <= g
      {
        assert Recorded(src, id);
        if id > t.Mark() { UncoveredIsHandedOut(t, id); }
      }
    }
  }

  lemma {:induction false} ColumnMaxIsGathered(columns: seq<seq<int>>, i: nat)
    requires i < |columns| && MaxId(columns[i]) > 0
    ensures MaxId(columns[i]) in ColumnMaxima(columns)
  {
    hide MaxId;
    if i < |columns| - 1 { ColumnMaxIsGathered(columns[..|columns| - 1], i); }
  }

  /** That holds when every column's largest id is believable. */
  lemma BelievableMaximaCover(t: Table, src: Sources)
    requires t.Valid() && forall i :: 0 <= i < |src.columns| ==> Believable(MaxId(src.columns[i]), MaxId(t.rows))
    ensures Covered(t.rows, src)
  {
    hide ColumnMaxima;
    var top := MaxId(t.rows);
    MaxIdIsMax(t.rows);
    forall i, id | 0 <= i < |src.columns| && id in src.columns[i] && Believable(id, top)
      ensures id <= top || exists g :: g in Gathered(src) && Believable(g, top) && id <= g
    {
      var column := src.columns[i];
      MaxIdIsMax(column);
      if id > 0 {
        ColumnMaxIsGathered(src.columns, i);
        assert MaxId(column) in Gathered(src);
      }
    }
  }

  // Rows 1 to 3 and a column that holds 5 and an unbelievable id: the second insert is 5.
  lemma HiddenIdIsReused(t: Table, src: Sources)
    requires t == Table([1, 2, 3], Some(3)) && src == Sources([[5, 99_999_999]], [], [])
    ensures IsFloor(t.rows, Gathered(src), t.Mark()) && NewIds(t, [Insert, Insert]) == [4, 5]
    ensures Recorded(src, 5) && Believable(5, MaxId(t.rows))
  {
    assert t.rows[..2] == [1, 2] && [1, 2][..1] == [1];
    assert MaxId(t.rows) == 3;
    var column := src.columns[0];
    assert column[..1] == [5] && MaxId(column) == 99_999_999;
    assert src.columns[..0] == [] && ColumnMaxima(src.columns) == [99_999_999];
    assert Gathered(src) == [99_999_999];
    assert 5 in column;
    assert [Insert, Insert][..1] == [Insert] && [Insert][..0] == [];
  }

  /** Without AUTOINCREMENT ids do come back: the next id is one above the largest present, so
      deleting the newest row frees its id. */
  lemma PlainRowidsAreReused(rows: seq<int>)
    requires rows == [] || MaxId(rows) > 0
    ensures var id := MaxId(rows) + 1;
            MaxId(rows + [id]) == id && MaxId(Without(rows + [id], id)) + 1 == id
  {
    var id := MaxId(rows) + 1;
    MaxIdIsMax(rows);
    assert (rows + [id])[..|rows|] == rows;
    WithoutAbsent(rows, id);
    assert rows + [] == rows;
  }

  lemma {:induction false} WithoutAbsent(rows: seq<int>, id: int)
    requires id !in rows
    ensures Without(rows, id) == rows
  {
    if rows != [] {
      assert rows[|rows| - 1] in rows;
      WithoutAbsent(rows[..|rows| - 1], id);
    }
  }
}
