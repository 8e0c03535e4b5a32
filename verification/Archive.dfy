/** Archiving old rows to a file and restoring them: src/archive/archive.service.ts. */
module Archive {
  import opened Wrappers

  /** Identifiers stand for their places in the database's order of ids. */
  datatype Row = Row(id: int, time: int, data: string)

  /** A table in id order, as `orderBy: { id: 'asc' }` reads it. */
  type Table = seq<Row>

  /** A line of the file once decompressed and parsed. */
  datatype Line = Record(entity: string, row: Row) | Malformed

  datatype Error = UnknownEntity(name: string) | ParseError

  const BATCH_SIZE: nat := 1000

  predicate Sorted(t: Table) {
    forall i, j | 0 <= i < j < |t| :: t[i].id < t[j].id
  }

  /** The rows older than the cutoff, and the others. */
  function Old(t: Table, cutoff: int): Table {
    if t == [] then [] else if t[0].time < cutoff then [t[0]] + Old(t[1..], cutoff) else Old(t[1..], cutoff)
  }

  function Young(t: Table, cutoff: int): Table {
    if t == [] then [] else if t[0].time < cutoff then Young(t[1..], cutoff) else [t[0]] + Young(t[1..], cutoff)
  }

  function After(t: Table, cursor: Option<int>): Table {
    if t == [] then []
    else if cursor.None? || t[0].id > cursor.value then [t[0]] + After(t[1..], cursor)
    else After(t[1..], cursor)
  }

  function Without(t: Table, ids: set<int>): Table {
    if t == [] then [] else if t[0].id in ids then Without(t[1..], ids) else [t[0]] + Without(t[1..], ids)
  }

  function Ids(t: Table): set<int> { set r | r in t :: r.id }

  function Lines(entity: string, t: Table): (lines: seq<Line>)
    ensures |lines| == |t|
  {
    seq(|t|, i requires 0 <= i < |t| => Record(entity, t[i]))
  }

  /** `upsert` with an empty update: a row whose id is taken changes nothing. */
  function Upserted(t: Table, row: Row): Table {
    if t == [] then [row]
    else if t[0].id < row.id then [t[0]] + Upserted(t[1..], row)
    else if t[0].id == row.id then t
    else [row] + t
  }

  predicate Restorable(entity: string) { entity == "LoginHistory" || entity == "ActivityLog" }

  type Tables = map<string, Table>

  predicate ValidTables(tables: Tables) {
    && tables.Keys == {"LoginHistory", "ActivityLog", "PropertyView"}
    && forall e | e in tables :: Sorted(tables[e])
  }

  function RestoredLine(tables: Tables, line: Line): (after: Tables)
    requires ValidTables(tables)
    ensures ValidTables(after)
  {
    if line.Record? && Restorable(line.entity) then
      UpsertKeepsSorted(tables[line.entity], line.row);
      tables[line.entity := Upserted(tables[line.entity], line.row)]
    else tables
  }

  function Restored(tables: Tables, lines: seq<Line>): (after: Tables)
    requires ValidTables(tables)
    ensures ValidTables(after)
  {
    if lines == [] then tables
    else RestoredLine(Restored(tables, lines[..|lines| - 1]), lines[|lines| - 1])
  }

  function ErrorsOf(lines: seq<Line>): (errors: seq<Error>)
    ensures |errors| <= |lines|
  {
    if lines == [] then []
    else
      var line := lines[|lines| - 1];
      ErrorsOf(lines[..|lines| - 1])
        + if line.Malformed? then [ParseError]
          else if Restorable(line.entity) then [] else [UnknownEntity(line.entity)]
  }

  // --- the service -----------------------------------------------------------------------------

  class ArchiveService {
    var tables: Tables

    ghost predicate Valid()
      reads this
    {
      ValidTables(tables)
    }

    constructor (tables: Tables)
      requires ValidTables(tables)
      ensures Valid() && this.tables == tables
    {
      this.tables := tables;
    }

    method FetchBatch(entity: string, cutoff: int, cursor: Option<int>) returns (batch: Table)
      requires Valid() && entity in tables
      ensures var all := Old(After(tables[entity], cursor), cutoff);
              batch == if |all| <= BATCH_SIZE then all else all[..BATCH_SIZE]
    {
      batch := Old(After(tables[entity], cursor), cutoff);
      if |batch| > BATCH_SIZE { batch := batch[..BATCH_SIZE]; }
    }

    method DeleteBatch(entity: string, ids: set<int>)
      requires Valid() && entity in tables
      modifies this
      ensures Valid() && tables == old(tables)[entity := Without(old(tables)[entity], ids)]
    {
      WithoutKeepsSorted(tables[entity], ids);
      tables := tables[entity := Without(tables[entity], ids)];
    }

    method WriteBatch(entity: string, batch: Table, written: seq<Line>) returns (lines: seq<Line>)
      ensures lines == written + Lines(entity, batch)
    {
      lines := written;
      for i := 0 to |batch|
        invariant lines == written + Lines(entity, batch)[..i]
      {
        lines := lines + [Record(entity, batch[i])];
      }
    }

    /** The lines written are exactly the rows older than the cutoff, in id order and each once; the
        table keeps exactly the others; an archive without lines leaves no file. */
    method ArchiveAndDelete(entity: string, cutoff: int) returns (totalArchived: nat, file: Option<seq<Line>>)
      requires Valid() && entity in tables
      modifies this
      ensures Valid()
      ensures tables == old(tables)[entity := Young(old(tables)[entity], cutoff)]
      ensures var archived := Old(old(tables)[entity], cutoff);
              && totalArchived == |archived|
              && file == if archived == [] then None else Some(Lines(entity, archived))
    {
      hide Sorted, Old, Young, After, Without, Ids, Progress, Lines;
      ghost var before, done: Table := tables[entity], [];
      var cursor: Option<int> := None;
      var lines: seq<Line> := [];
      totalArchived := 0;
      Start(before, cutoff);
      LinesAppend(entity, [], []);
      while true
        invariant Valid() && entity in tables && tables == old(tables)[entity := tables[entity]]
        invariant Progress(before, tables[entity], cutoff, done, cursor)
        invariant lines == Lines(entity, done) && totalArchived == |done|
        decreases |Old(tables[entity], cutoff)|
      {
        var batch := FetchBatch(entity, cutoff, cursor);
        BatchIsPrefix(before, tables[entity], cutoff, done, cursor, batch);
        if |batch| == 0 { break; }
        lines := WriteBatch(entity, batch, lines);
        Advance(before, tables[entity], cutoff, done, cursor, batch);
        DeleteBatch(entity, Ids(batch));
        totalArchived := totalArchived + |batch|;
        cursor := Some(batch[|batch| - 1].id);
        LinesAppend(entity, done, batch);
        done := done + batch;
        if |batch| < BATCH_SIZE { break; }
      }
      Finish(before, tables[entity], cutoff, done, cursor);
      file := if totalArchived == 0 then None else Some(lines);
      assert totalArchived == 0 <==> done == [];
    }

    method RestoreFromArchive(lines: seq<Line>) returns (restored: nat, errors: seq<Error>)
      requires Valid()
      modifies this
      ensures Valid() && tables == Restored(old(tables), lines)
      ensures errors == ErrorsOf(lines) && restored == |lines| - |errors|
    {
      hide Sorted, Restored, ErrorsOf;
      RestoredNone(tables);
      restored, errors := 0, [];
      for i := 0 to |lines|
        invariant Valid() && tables == Restored(old(tables), lines[..i])
        invariant errors == ErrorsOf(lines[..i]) && restored == i - |errors|
      {
        RestoredMore(old(tables), lines, i);
        match lines[i]
        case Malformed => errors := errors + [ParseError];
        case Record(entity, row) =>
          if entity == "LoginHistory" || entity == "ActivityLog" {
            UpsertKeepsSorted(tables[entity], row);
            tables := tables[entity := Upserted(tables[entity], row)];
            restored := restored + 1;
          } else {
            errors := errors + [UnknownEntity(entity)];
          }
      }
      assert lines[..|lines|] == lines;
    }
  }

  // --- sorted tables ---------------------------------------------------------------------------

  lemma Tail(t: Table)
    requires t != [] && Sorted(t)
    ensures Sorted(t[1..]) && forall r | r in t[1..] :: t[0].id < r.id
  {
  }

  lemma Prepended(row: Row, t: Table)
    requires Sorted(t) && forall r | r in t :: row.id < r.id
    ensures Sorted([row] + t)
  {
  }

  lemma RestoredNone(tables: Tables)
    requires ValidTables(tables)
    ensures Restored(tables, []) == tables && ErrorsOf([]) == []
  {
  }

  lemma RestoredMore(tables: Tables, lines: seq<Line>, i: nat)
    requires ValidTables(tables) && i < |lines|
    ensures Restored(tables, lines[..i + 1]) == RestoredLine(Restored(tables, lines[..i]), lines[i])
    ensures ErrorsOf(lines[..i + 1]) == ErrorsOf(lines[..i])
      + if lines[i].Malformed? then [ParseError]
        else if Restorable(lines[i].entity) then [] else [UnknownEntity(lines[i].entity)]
  {
    hide RestoredLine, ValidTables;
    assert lines[..i + 1][..i] == lines[..i];
  }

  // --- lemmas about one batch ------------------------------------------------------------------

  lemma {:induction false} AfterNothing(t: Table)
    ensures After(t, None) == t
  {
    if t != [] { AfterNothing(t[1..]); }
  }

  lemma {:induction false} WithoutKeepsSorted(t: Table, ids: set<int>)
    requires Sorted(t)
    ensures Sorted(Without(t, ids)) && forall r | r in Without(t, ids) :: r in t
  {
    hide Sorted;
    if t != [] {
      Tail(t);
      WithoutKeepsSorted(t[1..], ids);
      assert forall r | r in t[1..] :: r in t;
      if t[0].id !in ids { Prepended(t[0], Without(t[1..], ids)); }
    }
  }

  lemma {:induction false} WithoutAbsent(t: Table, ids: set<int>, id: int)
    requires forall r | r in t :: r.id != id
    ensures Without(t, ids + {id}) == Without(t, ids)
  {
    if t != [] {
      assert t[0] in t && forall r | r in t[1..] :: r in t;
      WithoutAbsent(t[1..], ids, id);
    }
  }

  lemma {:induction false} WithoutNone(t: Table)
    ensures Without(t, {}) == t
  {
    if t != [] { WithoutNone(t[1..]); }
  }

  lemma {:induction false} OldInTable(t: Table, cutoff: int)
    ensures forall r | r in Old(t, cutoff) :: r in t && r.time < cutoff
    ensures forall r | r in Young(t, cutoff) :: r in t && r.time >= cutoff
    ensures forall r | r in t :: r in Old(t, cutoff) || r in Young(t, cutoff)
  {
    if t != [] { OldInTable(t[1..], cutoff); }
  }

  lemma OldRowDeleted(t: Table, cutoff: int, k: nat)
    requires t != [] && t[0].time < cutoff && 0 < k <= |Old(t, cutoff)|
    requires forall r | r in t[1..] :: t[0].id < r.id
    ensures Without(t, Ids(Old(t, cutoff)[..k])) == Without(t[1..], Ids(Old(t[1..], cutoff)[..k - 1]))
    ensures Old(t, cutoff)[k..] == Old(t[1..], cutoff)[k - 1..]
  {
    var batch, tail := Old(t, cutoff)[..k], Old(t[1..], cutoff)[..k - 1];
    assert batch == [t[0]] + tail;
    assert Ids(batch) == Ids(tail) + {t[0].id};
    WithoutAbsent(t[1..], Ids(tail), t[0].id);
  }

  lemma YoungRowKept(t: Table, cutoff: int, k: nat)
    requires t != [] && t[0].time >= cutoff && k <= |Old(t, cutoff)|
    requires forall r | r in t[1..] :: t[0].id < r.id
    ensures Old(t, cutoff) == Old(t[1..], cutoff)
    ensures Without(t, Ids(Old(t, cutoff)[..k])) == [t[0]] + Without(t[1..], Ids(Old(t, cutoff)[..k]))
  {
    OldInTable(t[1..], cutoff);
    assert forall r | r in Old(t, cutoff)[..k] :: r in Old(t[1..], cutoff);
  }

  /** Deleting the first k old rows leaves the other old rows and all young ones. */
  lemma {:induction false} BatchDeleted(t: Table, cutoff: int, k: nat)
    requires Sorted(t) && k <= |Old(t, cutoff)|
    ensures var rest := Without(t, Ids(Old(t, cutoff)[..k]));
            Old(rest, cutoff) == Old(t, cutoff)[k..] && Young(rest, cutoff) == Young(t, cutoff)
  {
    hide Sorted;
    if k == 0 {
      assert Ids(Old(t, cutoff)[..k]) == {};
      WithoutNone(t);
    } else {
      Tail(t);
      if t[0].time < cutoff {
        BatchDeleted(t[1..], cutoff, k - 1);
        OldRowDeleted(t, cutoff, k);
      } else {
        BatchDeleted(t[1..], cutoff, k);
        YoungRowKept(t, cutoff, k);
      }
    }
  }

  /** The rows left to archive lie after the last one archived. */
  lemma RestIsAfter(t: Table, cutoff: int, k: nat)
    requires Sorted(t) && 0 < k <= |Old(t, cutoff)|
    ensures var rest := Without(t, Ids(Old(t, cutoff)[..k]));
            Old(After(rest, Some(Old(t, cutoff)[k - 1].id)), cutoff) == Old(rest, cutoff)
  {
    var batch := Old(t, cutoff)[..k];
    var rest := Without(t, Ids(batch));
    BatchDeleted(t, cutoff, k);
    OldKeepsSorted(t, cutoff);
    OldAfter(rest, cutoff, Old(t, cutoff)[k - 1].id);
  }

  /** The archive loop between batches: `done` is written and deleted, the rest is still in the table and
      lies after the cursor. */
  ghost predicate Progress(before: Table, table: Table, cutoff: int, done: Table, cursor: Option<int>) {
    && Old(before, cutoff) == done + Old(table, cutoff)
    && Young(table, cutoff) == Young(before, cutoff)
    && Old(After(table, cursor), cutoff) == Old(table, cutoff)
  }

  lemma Start(t: Table, cutoff: int)
    ensures Progress(t, t, cutoff, [], None)
  {
    AfterNothing(t);
    assert [] + Old(t, cutoff) == Old(t, cutoff);
  }

  lemma LinesAppend(entity: string, t: Table, u: Table)
    ensures Lines(entity, []) == [] && Lines(entity, t + u) == Lines(entity, t) + Lines(entity, u)
  {
  }

  lemma BatchIsPrefix(before: Table, t: Table, cutoff: int, done: Table, cursor: Option<int>, batch: Table)
    requires Progress(before, t, cutoff, done, cursor)
    requires var all := Old(After(t, cursor), cutoff); batch == if |all| <= BATCH_SIZE then all else all[..BATCH_SIZE]
    ensures |batch| <= |Old(t, cutoff)| && batch == Old(t, cutoff)[..|batch|]
    ensures |batch| < BATCH_SIZE ==> Old(t, cutoff) == batch
  {
  }

  lemma Advance(before: Table, t: Table, cutoff: int, done: Table, cursor: Option<int>, batch: Table)
    requires Sorted(t) && Progress(before, t, cutoff, done, cursor)
    requires 0 < |batch| <= |Old(t, cutoff)| && batch == Old(t, cutoff)[..|batch|]
    ensures var rest := Without(t, Ids(batch));
            && Progress(before, rest, cutoff, done + batch, Some(batch[|batch| - 1].id))
            && Old(rest, cutoff) == Old(t, cutoff)[|batch|..]
  {
    hide Sorted, Old, Young, After, Without, Ids;
    BatchDeleted(t, cutoff, |batch|);
    RestIsAfter(t, cutoff, |batch|);
    var rest := Without(t, Ids(batch));
    assert Old(t, cutoff) == batch + Old(rest, cutoff);
    assert done + (batch + Old(rest, cutoff)) == done + batch + Old(rest, cutoff);
  }

  lemma Finish(before: Table, t: Table, cutoff: int, done: Table, cursor: Option<int>)
    requires Progress(before, t, cutoff, done, cursor) && Old(t, cutoff) == []
    ensures Old(before, cutoff) == done && t == Young(before, cutoff)
  {
    NoneOld(t, cutoff);
    assert done + [] == done;
  }

  lemma {:induction false} OldKeepsSorted(t: Table, cutoff: int)
    requires Sorted(t)
    ensures Sorted(Old(t, cutoff)) && Sorted(Young(t, cutoff))
  {
    if t != [] {
      hide Sorted;
      Tail(t);
      OldKeepsSorted(t[1..], cutoff);
      OldInTable(t[1..], cutoff);
      if t[0].time < cutoff {
        Prepended(t[0], Old(t[1..], cutoff));
      } else {
        Prepended(t[0], Young(t[1..], cutoff));
      }
    }
  }

  lemma {:induction false} OldAfter(t: Table, cutoff: int, cursor: int)
    requires forall r | r in Old(t, cutoff) :: r.id > cursor
    ensures Old(After(t, Some(cursor)), cutoff) == Old(t, cutoff)
  {
    if t != [] {
      assert forall r | r in Old(t[1..], cutoff) :: r in Old(t, cutoff);
      if t[0].time < cutoff { assert t[0] in Old(t, cutoff); }
      OldAfter(t[1..], cutoff, cursor);
    }
  }

  lemma {:induction false} NoneOld(t: Table, cutoff: int)
    ensures Old(t, cutoff) == [] ==> Young(t, cutoff) == t
  {
    if t != [] { NoneOld(t[1..], cutoff); }
  }

  // --- the round trip --------------------------------------------------------------------------

  lemma {:induction false} UpsertAdds(t: Table, row: Row)
    ensures Ids(Upserted(t, row)) == Ids(t) + {row.id}
    ensures forall r | r in Upserted(t, row) :: r == row || r in t
    ensures forall r | r in t :: r in Upserted(t, row)
  {
    if t != [] {
      UpsertAdds(t[1..], row);
      assert forall r | r in t :: r == t[0] || r in t[1..];
      assert forall r | r in t[1..] :: r in t;
    }
  }

  lemma {:induction false} UpsertKeepsSorted(t: Table, row: Row)
    requires Sorted(t)
    ensures Sorted(Upserted(t, row))
  {
    hide Sorted, Ids;
    if t == [] {
      Prepended(row, t);
      assert [row] + t == Upserted(t, row);
    } else {
      Tail(t);
      if t[0].id < row.id {
        UpsertKeepsSorted(t[1..], row);
        UpsertAdds(t[1..], row);
        Prepended(t[0], Upserted(t[1..], row));
      } else if t[0].id > row.id {
        Prepended(row, t);
      }
    }
  }

  lemma IdTaken(t: Table, id: int)
    requires Sorted(t) && id in Ids(t)
    ensures t != [] && t[0].id <= id && Sorted(t[1..]) && (t[0].id < id ==> id in Ids(t[1..]))
  {
    var r :| r in t && r.id == id;
    Tail(t);
    if t[0].id < id { assert r in t[1..]; }
  }

  /** A row whose id is taken is not written. */
  lemma {:induction false} UpsertTaken(t: Table, row: Row)
    requires Sorted(t) && row.id in Ids(t)
    ensures Upserted(t, row) == t
  {
    hide Sorted, Ids;
    IdTaken(t, row.id);
    if t[0].id < row.id { UpsertTaken(t[1..], row); }
  }

  /** A row whose id is free is added. */
  lemma {:induction false} UpsertFree(t: Table, row: Row)
    requires row.id !in Ids(t)
    ensures row in Upserted(t, row)
  {
    if t != [] && t[0].id < row.id {
      assert forall r | r in t[1..] :: r in t;
      UpsertFree(t[1..], row);
    } else if t != [] {
      assert t[0] in t;
    }
  }

  /** Two tables with the same rows are the same. */
  lemma {:induction false} SameRows(t: Table, u: Table)
    requires Sorted(t) && Sorted(u)
    requires (forall r | r in t :: r in u) && (forall r | r in u :: r in t)
    ensures t == u
  {
    hide Sorted;
    if u != [] { assert u[0] in t; }
    if t != [] {
      assert t[0] in u;
      Tail(t);
      Tail(u);
      assert forall r | r in t :: r == t[0] || r in t[1..];
      assert forall r | r in u :: r == u[0] || r in u[1..];
      SameRows(t[1..], u[1..]);
    }
  }

  /** Upserting every row of u into t. */
  function UpsertedAll(t: Table, u: Table): Table {
    if u == [] then t else Upserted(UpsertedAll(t, u[..|u| - 1]), u[|u| - 1])
  }

  lemma Front(u: Table)
    requires u != [] && Sorted(u)
    ensures var rest, row := u[..|u| - 1], u[|u| - 1];
            && Sorted(rest) && Ids(u) == Ids(rest) + {row.id} && row.id !in Ids(rest)
            && (forall r | r in u :: r in rest || r == row) && (forall r | r in rest :: r in u)
  {
  }

  /** Rows whose ids are free and all different are simply added. */
  lemma {:induction false} AllAdded(t: Table, u: Table)
    requires Sorted(t) && Sorted(u) && Ids(t) !! Ids(u)
    ensures var w := UpsertedAll(t, u);
            && Sorted(w) && Ids(w) == Ids(t) + Ids(u)
            && (forall r | r in w :: r in t || r in u)
            && (forall r | r in t :: r in w) && (forall r | r in u :: r in w)
  {
    if u != [] {
      hide Sorted, Ids;
      var rest, row := u[..|u| - 1], u[|u| - 1];
      Front(u);
      AllAdded(t, rest);
      UpsertKeepsSorted(UpsertedAll(t, rest), row);
      UpsertAdds(UpsertedAll(t, rest), row);
      UpsertFree(UpsertedAll(t, rest), row);
    }
  }

  /** Putting the old rows back among the young ones gives the table again. */
  lemma PartsMakeTable(t: Table, cutoff: int)
    requires Sorted(t)
    ensures UpsertedAll(Young(t, cutoff), Old(t, cutoff)) == t
  {
    var y, o := Young(t, cutoff), Old(t, cutoff);
    OldKeepsSorted(t, cutoff);
    OldInTable(t, cutoff);
    forall r, q | r in t && q in t && r.id == q.id ensures r == q { SameId(t, r, q); }
    AllAdded(y, o);
    SameRows(UpsertedAll(y, o), t);
  }

  lemma SameId(t: Table, r: Row, q: Row)
    requires Sorted(t) && r in t && q in t && r.id == q.id
    ensures r == q
  {
    var i, j :| 0 <= i < |t| && 0 <= j < |t| && t[i] == r && t[j] == q;
    assert i == j;
  }

  lemma {:induction false} RestoredLines(tables: Tables, entity: string, u: Table)
    requires ValidTables(tables) && entity in tables
    ensures Restored(tables, Lines(entity, u)) ==
      if Restorable(entity) then tables[entity := UpsertedAll(tables[entity], u)] else tables
    ensures |ErrorsOf(Lines(entity, u))| == if Restorable(entity) then 0 else |u|
  {
    hide Restored, ErrorsOf, Sorted;
    var lines := Lines(entity, u);
    if u == [] {
      assert lines == [] && tables[entity := tables[entity]] == tables;
      RestoredNone(tables);
    } else {
      var rest := u[..|u| - 1];
      assert lines[..|u| - 1] == Lines(entity, rest) && lines[..|u|] == lines;
      RestoredLines(tables, entity, rest);
      RestoredMore(tables, lines, |u| - 1);
    }
  }

  /** Which entities come back: a line of one of the two leaves its row in their table, and a line of any other
      changes nothing. */
  lemma LinesComeBack(tables: Tables, entity: string, row: Row)
    requires ValidTables(tables)
    ensures var after := RestoredLine(tables, Record(entity, row));
      && (entity == "LoginHistory" || entity == "ActivityLog" ==> row.id in Ids(after[entity]))
      && (entity != "LoginHistory" && entity != "ActivityLog" ==> after == tables)
  {
    if entity == "LoginHistory" || entity == "ActivityLog" { var _ := UpsertedIsThere(tables[entity], row); }
  }

  lemma {:induction false} UpsertedIsThere(t: Table, row: Row) returns (r: Row)
    ensures r in Upserted(t, row) && r.id == row.id
  {
    if t != [] && t[0].id < row.id {
      r := UpsertedIsThere(t[1..], row);
      assert r in [t[0]] + Upserted(t[1..], row);
    } else if t == [] || t[0].id > row.id {
      r := row;
      assert r in [row] + t;
    } else {
      r := t[0];
    }
  }

  /** The search for the next batch goes on after the last row of the one before. */
  lemma {:induction false} AfterExactly(t: Table, cursor: Option<int>, r: Row)
    ensures r in After(t, cursor) <==> r in t && (cursor.Some? ==> cursor.value < r.id)
  {
    if t != [] { AfterExactly(t[1..], cursor, r); }
  }

  /** Restoring an archive gives back the tables as they were exactly when the entity is one that
      restoring knows, or nothing was archived. */
  lemma RoundTrip(tables: Tables, entity: string, cutoff: int)
    requires ValidTables(tables) && entity in tables
    ensures var young := tables[entity := Young(tables[entity], cutoff)];
            && ValidTables(young)
            && (Restored(young, Lines(entity, Old(tables[entity], cutoff))) == tables <==>
                Restorable(entity) || Old(tables[entity], cutoff) == [])
  {
    hide Sorted, UpsertedAll, Restored;
    var t := tables[entity];
    var young := tables[entity := Young(t, cutoff)];
    OldKeepsSorted(t, cutoff);
    RestoredLines(young, entity, Old(t, cutoff));
    PartsMakeTable(t, cutoff);
    NoneOld(t, cutoff);
    OldOrYoung(t, cutoff);
    assert Restorable(entity) ==> young[entity := t] == tables;
    assert young == tables <==> Young(t, cutoff) == t;
  }

  lemma {:induction false} OldOrYoung(t: Table, cutoff: int)
    ensures |Old(t, cutoff)| + |Young(t, cutoff)| == |t|
  {
    if t != [] { OldOrYoung(t[1..], cutoff); }
  }

  /** The ids that a file needs are in the tables. */
  predicate Holds(tables: Tables, line: Line) {
    line.Record? && Restorable(line.entity) ==> line.entity in tables && line.row.id in Ids(tables[line.entity])
  }

  lemma {:induction false} RestoringHolds(tables: Tables, lines: seq<Line>, line: Line)
    requires ValidTables(tables)
    ensures Holds(tables, line) || line in lines ==> Holds(Restored(tables, lines), line)
  {
    if lines != [] {
      var rest, last := lines[..|lines| - 1], lines[|lines| - 1];
      RestoringHolds(tables, rest, line);
      if last.Record? && Restorable(last.entity) {
        UpsertAdds(Restored(tables, rest)[last.entity], last.row);
      }
    }
  }

  lemma {:induction false} HeldLinesChangeNothing(tables: Tables, lines: seq<Line>)
    requires ValidTables(tables) && forall line | line in lines :: Holds(tables, line)
    ensures Restored(tables, lines) == tables
  {
    if lines != [] {
      var rest, last := lines[..|lines| - 1], lines[|lines| - 1];
      assert last in lines && forall line | line in rest :: line in lines;
      HeldLinesChangeNothing(tables, rest);
      if last.Record? && Restorable(last.entity) {
        UpsertTaken(tables[last.entity], last.row);
      }
    }
  }

  /** Restoring any file a second time changes nothing. */
  lemma RestoringTwice(tables: Tables, lines: seq<Line>)
    requires ValidTables(tables)
    ensures Restored(Restored(tables, lines), lines) == Restored(tables, lines)
  {
    forall line | line in lines ensures Holds(Restored(tables, lines), line) {
      RestoringHolds(tables, lines, line);
    }
    HeldLinesChangeNothing(Restored(tables, lines), lines);
  }
}
