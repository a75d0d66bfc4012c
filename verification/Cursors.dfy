/** The row cursors: blocks of a query result, tables that pass the filters, and the columns of
    those tables.  Each is written with `goto again` and moves in place; each promises to hand out
    one plain sequence, head first. */
module Cursors {
  datatype Option<T> = None | Some(value: T)

  datatype Outcome = Success | NoData | Error

  // ---------------------------------------------------------------- blocks

  /** What one taos_fetch_raw_block answers: rows, none meaning the end, or a failure. */
  datatype Fetched<T> = Rows(rows: seq<T>) | Failed

  /** The rows that a query still has to give: block after block, up to an empty one. */
  function RowsOf<T>(feed: seq<Fetched<T>>): seq<T> {
    if feed == [] then []
    else if feed[0].Failed? then RowsOf(feed[1..])
    else if feed[0].rows == [] then []
    else feed[0].rows + RowsOf(feed[1..])
  }

  /** Blocks before an empty one add up, whatever fails in between; an empty block ends the rows. */
  lemma {:induction false} RowsOfParts<T>(a: seq<Fetched<T>>, b: seq<Fetched<T>>, rows: seq<T>)
    requires forall i :: 0 <= i < |a| ==> a[i] != Rows([])
    ensures RowsOf(a + b) == RowsOf(a) + RowsOf(b)
    ensures RowsOf([Rows(rows)]) == rows && RowsOf([Failed] + b) == RowsOf(b) && RowsOf([Rows([])] + b) == []
    decreases |a|
  {
    assert ([Failed] + b)[1..] == b;
    assert RowsOf<T>([]) == [] && [Rows(rows)][1..] == [];
    if a == [] {
      assert a + b == b;
    } else {
      assert (a + b)[1..] == a[1..] + b;
      RowsOfParts(a[1..], b, rows);
    }
  }

  predicate NeverFails<T>(feed: seq<Fetched<T>>) {
    forall i :: 0 <= i < |feed| ==> feed[i].Rows?
  }

  /** tsdb_stmt_t with a result: the block being read and the rows of it already handed out. */
  class TsdbCursor<T> {
    var feed: seq<Fetched<T>>
    var block: seq<T>
    var pos: nat
    var eof: bool

    ghost predicate Valid()
      reads this
    {
      pos <= |block| && (eof ==> block == [])
    }

    /** A row has been handed out and is still in the block. */
    ghost predicate AtRow()
      reads this
    {
      0 < pos <= |block|
    }

    function Current(): T
      requires AtRow()
      reads this
    {
      block[pos - 1]
    }

    ghost function Remaining(): seq<T>
      requires Valid()
      reads this
    {
      if eof then [] else block[pos..] + RowsOf(feed)
    }

    constructor ()
      ensures Valid() && Remaining() == [] && !AtRow() && NeverFails(feed)
    {
      feed, block, pos, eof := [], [], 0, false;
    }

    /** tsdb_stmt_reset, then a query whose answers will be feed. */
    method Query(feed: seq<Fetched<T>>)
      modifies this
      ensures Valid() && !AtRow() && Remaining() == RowsOf(feed) && this.feed == feed
    {
      this.feed, block, pos, eof := feed, [], 0, false;
    }

    /** _tsdb_stmt_fetch_rows_block. */
    method FetchRowsBlock() returns (o: Outcome)
      requires Valid() && !eof && pos >= |block|
      modifies this
      ensures Valid() && eof == old(eof) && !AtRow()
      ensures if old(feed) == [] then feed == [] else feed == old(feed[1..])
      ensures o == Error <==> old(feed) != [] && old(feed)[0].Failed?
      ensures o == NoData <==> old(feed) == [] || old(feed)[0] == Rows([])
      ensures o != Success ==> block == []
      ensures o == Success ==> old(feed)[0] == Rows(block) && block != [] && pos == 0
    {
      block, pos := [], 0;
      if feed == [] { return NoData; }
      var fetched := feed[0];
      feed := feed[1..];
      if fetched.Failed? { return Error; }
      if fetched.rows == [] { return NoData; }
      block := fetched.rows;
      return Success;
    }

    /** _fetch_row of tsdb.c. */
    method Fetch() returns (o: Outcome)
      requires Valid()
      modifies this
      ensures Valid()
      ensures o == Success ==> AtRow() && old(Remaining()) == [Current()] + Remaining()
      ensures o == NoData ==> eof && old(Remaining()) == [] && Remaining() == []
      ensures o == Error ==> Remaining() == old(Remaining())
      ensures o != Success ==> !AtRow()
      ensures NeverFails(old(feed)) ==> NeverFails(feed) && o != Error
      ensures old(eof) ==> o == NoData && eof
    {
      if eof { return NoData; }
      while pos >= |block|
        invariant Valid() && !eof && Remaining() == old(Remaining())
        invariant NeverFails(old(feed)) ==> NeverFails(feed)
        decreases |feed|, |block| - pos
      {
        o := FetchRowsBlock();
        if o == NoData {
          eof := true;
          return NoData;
        }
        if o != Success { return Error; }
      }
      pos := pos + 1;
      return Success;
    }
  }

  // ---------------------------------------------------------------- tables

  datatype Table = Table(catalog: string, schema: string, name: string, kind: string)

  /** A compiled wildcard pattern: whether a text matches, None when matching fails (wildexec). */
  type Pattern = string -> Option<bool>

  /** What tables_open leaves behind.  types is the list of accepted table types, none meaning any. */
  datatype Filter = Filter(generic: bool, catalog: Option<Pattern>, currentDb: Option<string>, schema: Option<Pattern>,
                           name: Option<Pattern>, types: seq<string>)

  datatype Verdict = Keep | Skip | Bad

  function Matches(p: Option<Pattern>, s: string): Verdict {
    if p.None? then Keep
    else match p.value(s)
      case None => Bad
      case Some(matched) => if matched then Keep else Skip
  }

  /** The filters in the order they are tried; the current database only counts without a catalog
      pattern. */
  function Judge(f: Filter, t: Table): Verdict {
    if !f.generic then Keep
    else
      var catalog :=
        if f.catalog.Some? || f.currentDb.None? then Matches(f.catalog, t.catalog)
        else if t.catalog == f.currentDb.value then Keep
        else Skip;
      if catalog != Keep then catalog
      else if Matches(f.schema, t.schema) != Keep then Matches(f.schema, t.schema)
      else if Matches(f.name, t.name) != Keep then Matches(f.name, t.name)
      else if f.types != [] && t.kind !in f.types then Skip
      else Keep
  }

  function Kept(f: Filter, ts: seq<Table>): seq<Table> {
    if ts == [] then [] else (if Judge(f, ts[0]) == Keep then [ts[0]] else []) + Kept(f, ts[1..])
  }

  /** The pattern, if there is one, says yes. */
  predicate Accepts(p: Option<Pattern>, s: string) {
    p.None? || p.value(s) == Some(true)
  }

  /** Which tables are kept: all of them unless the listing is a general one, and then those that
      pass every filter given; the current database counts only without a catalog pattern. */
  lemma JudgeMeaning(f: Filter, t: Table)
    ensures Judge(f, t) == Keep <==>
      !f.generic ||
      (Accepts(f.catalog, t.catalog) && (f.catalog.None? && f.currentDb.Some? ==> t.catalog == f.currentDb.value)
       && Accepts(f.schema, t.schema) && Accepts(f.name, t.name) && (f.types == [] || t.kind in f.types))
  {
  }

  /** Matching fails exactly when a given pattern gives no answer, and rejects exactly when it says so. */
  lemma MatchesMeaning(p: Option<Pattern>, s: string)
    ensures Matches(p, s) == Keep <==> p.None? || p.value(s) == Some(true)
    ensures Matches(p, s) == Skip <==> p.Some? && p.value(s) == Some(false)
    ensures Matches(p, s) == Bad <==> p.Some? && p.value(s) == None
  {
  }

  /** A table makes the listing fail exactly when a given pattern gives no answer and every filter tried
      before it accepts. */
  lemma JudgeFails(f: Filter, t: Table)
    ensures Judge(f, t) == Bad <==>
      && f.generic
      && (|| (f.catalog.Some? && f.catalog.value(t.catalog) == None)
          || ((f.catalog.Some? ==> f.catalog.value(t.catalog) == Some(true))
              && (f.catalog.None? && f.currentDb.Some? ==> t.catalog == f.currentDb.value)
              && (|| (f.schema.Some? && f.schema.value(t.schema) == None)
                  || ((f.schema.Some? ==> f.schema.value(t.schema) == Some(true))
                      && f.name.Some? && f.name.value(t.name) == None))))
  {
  }

  /** The kept rows of a longer list are those of its parts, in order. */
  lemma {:induction false} KeptParts(f: Filter, a: seq<Table>, b: seq<Table>)
    ensures Kept(f, a + b) == Kept(f, a) + Kept(f, b)
    decreases |a|
  {
    hide Judge;
    if a == [] {
      assert a + b == b;
    } else {
      assert (a + b)[1..] == a[1..] + b;
      KeptParts(f, a[1..], b);
    }
  }

  /** Exactly the rows that pass are kept. */
  lemma {:induction false} KeptExactly(f: Filter, a: seq<Table>)
    ensures |Kept(f, a)| <= |a| && forall t :: t in Kept(f, a) <==> t in a && Judge(f, t) == Keep
    decreases |a|
  {
    hide Judge;
    if a != [] {
      KeptExactly(f, a[1..]);
      assert forall t :: t in a <==> t == a[0] || t in a[1..];
    }
  }

  predicate NeverBad(f: Filter, ts: seq<Table>) {
    forall i :: 0 <= i < |ts| ==> Judge(f, ts[i]) != Bad
  }

  /** tables_t: the query over all tables, and the filters. */
  class Tables {
    const stmt: TsdbCursor<Table>
    var filter: Filter

    ghost predicate Valid()
      reads this, stmt
    {
      stmt.Valid()
    }

    /** A table has been handed out: the row the statement stands on passed the filters. */
    ghost predicate AtTable()
      reads this, stmt
    {
      stmt.AtRow() && Judge(filter, stmt.Current()) == Keep
    }

    ghost function Remaining(): seq<Table>
      requires Valid()
      reads this, stmt
    {
      Kept(filter, stmt.Remaining())
    }

    ghost predicate Smooth()
      requires Valid()
      reads this, stmt
    {
      NeverFails(stmt.feed) && NeverBad(filter, stmt.Remaining())
    }

    constructor ()
      ensures Valid() && Remaining() == [] && Smooth() && !stmt.AtRow()
      ensures fresh(stmt)
    {
      stmt := new TsdbCursor();
      filter := Filter(true, None, None, None, None, []);
    }

    /** tables_open, once the query has been answered. */
    method Open(filter: Filter, feed: seq<Fetched<Table>>)
      modifies this, stmt
      ensures Valid() && !AtTable() && this.filter == filter && stmt.feed == feed && stmt.Remaining() == RowsOf(feed)
    {
      stmt.Query(feed);
      this.filter := filter;
    }

    /** _fetch_row_with_tsdb of tables.c. */
    method Fetch() returns (o: Outcome)
      requires Valid()
      modifies stmt
      ensures Valid()
      ensures o == Success ==> AtTable() && old(Remaining()) == [stmt.Current()] + Remaining()
      ensures o != Success ==> !AtTable()
      ensures o == NoData ==> stmt.eof && old(Remaining()) == []
      ensures o == Error ==> Remaining() == old(Remaining())
      ensures old(Smooth()) ==> Smooth() && o != Error
      ensures old(stmt.eof) ==> o == NoData && stmt.eof
    {
      while true
        invariant Valid() && Remaining() == old(Remaining())
        invariant old(Smooth()) ==> Smooth()
        invariant old(stmt.eof) ==> stmt.eof
        decreases |stmt.Remaining()|
      {
        o := stmt.Fetch();
        if o != Success { return; }
        match Judge(filter, stmt.Current())
        case Keep => return Success;
        case Bad => return Error;
        case Skip =>
      }
    }
  }

  // ---------------------------------------------------------------- columns

  datatype Column = Column(name: string, declaration: string)

  function KeptColumns(p: Option<Pattern>, t: Table, cs: seq<Column>): seq<(Table, Column)> {
    if cs == [] then []
    else (if Matches(p, cs[0].name) == Keep then [(t, cs[0])] else []) + KeptColumns(p, t, cs[1..])
  }

  lemma NoneKept(p: Option<Pattern>, t: Table)
    ensures KeptColumns(p, t, []) == []
  {
  }

  lemma KeptStep(p: Option<Pattern>, t: Table, cs: seq<Column>)
    requires cs != []
    ensures KeptColumns(p, t, cs) == (if Matches(p, cs[0].name) == Keep then [(t, cs[0])] else [])
      + KeptColumns(p, t, cs[1..])
    ensures NeverBadColumn(p, cs) ==> Matches(p, cs[0].name) != Bad && NeverBadColumn(p, cs[1..])
  {
  }

  /** What the server answers to the description of a table; the query itself succeeds. */
  type Describer = Table -> seq<Fetched<Column>>

  /** The columns of all tables, flattened. */
  function AllColumns(p: Option<Pattern>, d: Describer, ts: seq<Table>): seq<(Table, Column)> {
    if ts == [] then [] else KeptColumns(p, ts[0], RowsOf(d(ts[0]))) + AllColumns(p, d, ts[1..])
  }

  lemma {:induction false} KeptColumnsExactly(p: Option<Pattern>, t: Table, cs: seq<Column>)
    ensures forall x :: x in KeptColumns(p, t, cs) <==> x.0 == t && x.1 in cs && Accepts(p, x.1.name)
    decreases |cs|
  {
    if cs != [] {
      KeptColumnsExactly(p, t, cs[1..]);
      assert forall c :: c in cs <==> c == cs[0] || c in cs[1..];
    }
  }

  /** The flattening lists exactly the described columns that match, each with its own table. */
  lemma {:induction false} FlatteningExactly(p: Option<Pattern>, d: Describer, ts: seq<Table>)
    ensures forall x :: x in AllColumns(p, d, ts) <==> x.0 in ts && x.1 in RowsOf(d(x.0)) && Accepts(p, x.1.name)
    decreases |ts|
  {
    if ts != [] {
      KeptColumnsExactly(p, ts[0], RowsOf(d(ts[0])));
      FlatteningExactly(p, d, ts[1..]);
      assert forall t :: t in ts <==> t == ts[0] || t in ts[1..];
    }
  }

  /** The flattening of a longer list of tables, and the matching columns of a longer description, are
      those of the parts, in order. */
  lemma {:induction false} FlatteningParts(p: Option<Pattern>, d: Describer, a: seq<Table>, b: seq<Table>)
    ensures AllColumns(p, d, a + b) == AllColumns(p, d, a) + AllColumns(p, d, b)
    decreases |a|
  {
    hide KeptColumns, RowsOf;
    if a == [] {
      assert a + b == b;
    } else {
      assert (a + b)[1..] == a[1..] + b;
      FlatteningParts(p, d, a[1..], b);
    }
  }

  lemma {:induction false} KeptColumnsParts(p: Option<Pattern>, t: Table, a: seq<Column>, b: seq<Column>)
    ensures KeptColumns(p, t, a + b) == KeptColumns(p, t, a) + KeptColumns(p, t, b)
    decreases |a|
  {
    hide Matches;
    if a == [] {
      assert a + b == b;
    } else {
      assert (a + b)[1..] == a[1..] + b;
      KeptColumnsParts(p, t, a[1..], b);
    }
  }

  predicate NeverBadColumn(p: Option<Pattern>, cs: seq<Column>) {
    forall i :: 0 <= i < |cs| ==> Matches(p, cs[i].name) != Bad
  }

  predicate SmoothTables(p: Option<Pattern>, d: Describer, ts: seq<Table>) {
    forall i :: 0 <= i < |ts| ==> NeverFails(d(ts[i])) && NeverBadColumn(p, RowsOf(d(ts[i])))
  }

  /** No query fails and no pattern fails to match: what the queries answer for the tables, and for
      the description of each table that passes. */
  predicate Answers(f: Filter, feed: seq<Fetched<Table>>, p: Option<Pattern>, d: Describer) {
    NeverFails(feed) && NeverBad(f, RowsOf(feed)) && SmoothTables(p, d, Kept(f, RowsOf(feed)))
  }

  /** columns_t: the tables, the description of the current one, and its identity. */
  class Columns {
    const tables: Tables
    const desc: TsdbCursor<Column>
    const describe: Describer
    var pattern: Option<Pattern>
    var current: Option<Table>
    var ordinal: nat

    /** The cached identity is the table the tables cursor stands on, and it stands on one as long as
        that table's description is being read. */
    ghost predicate Valid()
      reads this`current, this`pattern, tables, tables.stmt, desc
    {
      && tables.Valid() && desc.Valid()
      && (current.None? ==> desc.Remaining() == [])
      && (tables.AtTable() ==> current == Some(tables.stmt.Current()))
      && (desc.AtRow() || desc.Remaining() != [] ==> tables.AtTable())
    }

    /** A column has been handed out, and the cached identity is the row under the tables cursor. */
    ghost predicate AtColumn()
      reads this`current, tables, tables.stmt, desc
    {
      desc.AtRow() && tables.AtTable() && current == Some(tables.stmt.Current())
    }

    /** Every column still to come, each with its table. */
    ghost function Remaining(): seq<(Table, Column)>
      requires Valid()
      reads this`current, this`pattern, tables, tables.stmt, desc
    {
      (if current.None? then [] else KeptColumns(pattern, current.value, desc.Remaining()))
      + AllColumns(pattern, describe, tables.Remaining())
    }

    /** Nothing can fail from here on. */
    ghost predicate Smooth()
      requires Valid()
      reads this`current, this`pattern, tables, tables.stmt, desc
    {
      && tables.Smooth() && SmoothTables(pattern, describe, tables.Remaining())
      && NeverFails(desc.feed) && NeverBadColumn(pattern, desc.Remaining())
    }

    constructor (describe: Describer)
      ensures Valid() && this.describe == describe && fresh(tables) && fresh(tables.stmt) && fresh(desc)
    {
      tables := new Tables();
      desc := new TsdbCursor();
      this.describe := describe;
      pattern, current, ordinal := None, None, 0;
    }

    /** _fetch_and_desc_next_table. */
    method NextTable() returns (o: Outcome)
      requires Valid() && desc.Remaining() == [] && !desc.AtRow()
      modifies this`current, tables.stmt, desc
      ensures Valid()
      ensures Remaining() == old(Remaining())
      ensures o == Success ==> old(tables.Remaining()) != [] && current == Some(old(tables.Remaining())[0])
      ensures o == NoData ==> old(tables.Remaining()) == []
      ensures o == Success ==> tables.AtTable() && current == Some(tables.stmt.Current())
      ensures o == Success ==> |tables.Remaining()| < old(|tables.Remaining()|)
      ensures o != Success ==> desc.Remaining() == []
      ensures o == NoData ==> tables.stmt.eof && Remaining() == []
      ensures old(Smooth()) ==> Smooth() && o != Error
      ensures old(tables.stmt.eof) ==> o == NoData
    {
      ghost var was := tables.Remaining();
      o := tables.Fetch();
      if o != Success { return; }
      assert was[1..] == tables.Remaining() && tables.stmt.Current() == was[0];
      current := Some(tables.stmt.Current());
      desc.Query(describe(tables.stmt.Current()));
    }

    lemma NoRows()
      ensures RowsOf<Column>([]) == []
    {
    }

    /** columns_open, once the tables query has been answered: it goes to the first table at once. */
    method Open(filter: Filter, feed: seq<Fetched<Table>>, pattern: Option<Pattern>) returns (o: Outcome)
      requires Valid()
      modifies this, tables, tables.stmt, desc
      ensures Valid()
      ensures Remaining() == AllColumns(pattern, describe, Kept(filter, RowsOf(feed)))
      ensures o == Success ==> Kept(filter, RowsOf(feed)) != [] && current == Some(Kept(filter, RowsOf(feed))[0])
      ensures o == NoData ==> Kept(filter, RowsOf(feed)) == []
      ensures o == Success ==> tables.AtTable() && current == Some(tables.stmt.Current())
      ensures ordinal == 0 && this.pattern == pattern
      ensures Answers(filter, feed, pattern, describe) ==> Smooth() && o != Error
    {
      hide RowsOf, KeptColumns, Matches, Judge;
      desc.Query([]);
      assert desc.Remaining() == [] by {
        NoRows();
      }
      this.pattern, current, ordinal := pattern, None, 0;
      tables.Open(filter, feed);
      o := NextTable();
    }

    /** One round of the loop of _fetch_row_with_tsdb; again says that it goes round once more. */
    method Round() returns (o: Outcome, again: bool)
      requires Valid()
      modifies this`current, tables.stmt, desc
      ensures Valid() && tables.Valid() && desc.Valid()
      ensures again ==> Remaining() == old(Remaining())
      ensures again ==>
        || |tables.Remaining()| < old(|tables.Remaining()|)
        || (tables.Remaining() == old(tables.Remaining()) && |desc.Remaining()| < old(|desc.Remaining()|))
      ensures !again && o == Success ==>
        AtColumn() && old(Remaining()) == [(current.value, desc.Current())] + Remaining()
      ensures !again && o == NoData ==> old(Remaining()) == [] && Remaining() == [] && tables.stmt.eof
      ensures !again && o == Error ==> Remaining() == old(Remaining())
      ensures old(Smooth()) ==> Smooth() && (!again ==> o != Error)
    {
      hide KeptColumns, NeverBadColumn, AllColumns, SmoothTables, Judge, Kept, RowsOf, Matches, NeverFails;
      hide Tables.Smooth, Tables.Remaining, Tables.AtTable, TsdbCursor.Remaining;
      ghost var was := desc.Remaining();
      o := desc.Fetch();
      if o == NoData {
        if current.Some? {
          NoneKept(pattern, current.value);
        }
        o := NextTable();
        return o, o == Success;
      }
      if o == Error { return Error, false; }
      assert was[1..] == desc.Remaining() && was[0] == desc.Current();
      KeptStep(pattern, current.value, was);
      var verdict := Matches(pattern, desc.Current().name);
      return if verdict == Bad then Error else Success, verdict == Skip;
    }

    lemma ValidParts()
      requires Valid()
      ensures tables.Valid() && desc.Valid()
    {
    }

    /** _fetch_row of columns.c: the next column of the flattening, with its table. */
    method Fetch() returns (o: Outcome)
      requires Valid()
      modifies this`current, this`ordinal, tables.stmt, desc
      ensures Valid()
      ensures o == Success ==> AtColumn() && old(Remaining()) == [(current.value, desc.Current())] + Remaining()
      ensures o == NoData ==> old(Remaining()) == [] && Remaining() == [] && tables.stmt.eof
      ensures o == Error ==> Remaining() == old(Remaining())
      ensures ordinal == old(ordinal) + (if o == Success then 1 else 0)
      ensures old(Smooth()) ==> Smooth() && o != Error
    {
      hide Remaining, Smooth, Valid;
      ValidParts();
      while true
        invariant tables.Valid() && desc.Valid()
        invariant Valid() && ordinal == old(ordinal) && Remaining() == old(Remaining())
        invariant old(Smooth()) ==> Smooth()
        decreases |tables.Remaining()|, |desc.Remaining()|
      {
        var again;
        o, again := Round();
        if !again {
          if o == Success {
            ordinal := ordinal + 1;
          }
          return;
        }
      }
    }
  }

  /** An application that fetches until there is no more data receives the flattening, in order and
      once each, numbered through; the end is final. */
  method FetchAll(columns: Columns) returns (out: seq<(Table, Column)>)
    requires columns.Valid() && columns.Smooth()
    modifies columns`current, columns`ordinal, columns.tables.stmt, columns.desc
    ensures columns.Valid() && columns.Smooth() && columns.Remaining() == []
    ensures out == old(columns.Remaining()) && columns.ordinal == old(columns.ordinal) + |out|
  {
    hide Columns.Valid, Columns.Remaining, Columns.Smooth;
    out := [];
    assert out + columns.Remaining() == old(columns.Remaining());
    while true
      invariant columns.Valid() && columns.Smooth()
      invariant out + columns.Remaining() == old(columns.Remaining())
      invariant columns.ordinal == old(columns.ordinal) + |out|
      decreases |columns.Remaining()|
    {
      ghost var was := columns.Remaining();
      var o := columns.Fetch();
      if o == NoData { return; }
      out := out + [(columns.current.value, columns.desc.Current())];
    }
  }

  /** columns_open and then fetching to the end, with no query errors: the flattening over all tables
      that pass, of each table's described columns that match; no data at once exactly when no table
      passes. */
  method ListColumns(filter: Filter, feed: seq<Fetched<Table>>, pattern: Option<Pattern>, describe: Describer)
    returns (o: Outcome, out: seq<(Table, Column)>)
    requires Answers(filter, feed, pattern, describe)
    ensures out == AllColumns(pattern, describe, Kept(filter, RowsOf(feed)))
    ensures o == if Kept(filter, RowsOf(feed)) == [] then NoData else Success
  {
    hide Columns.Valid, Columns.Remaining, Columns.Smooth, Answers, AllColumns, Kept, RowsOf;
    var columns := new Columns(describe);
    o := columns.Open(filter, feed, pattern);
    out := [];
    if o == Success {
      out := FetchAll(columns);
    } else {
      NoTables(pattern, describe);
    }
  }

  lemma NoTables(p: Option<Pattern>, d: Describer)
    ensures AllColumns(p, d, []) == []
  {
  }

  /** Queries that do not fail and patterns that always answer are enough. */
  lemma TotalPatternsAnswer(f: Filter, feed: seq<Fetched<Table>>, p: Option<Pattern>, d: Describer)
    requires forall i :: 0 <= i < |feed| ==> feed[i].Rows?
    requires forall t, i :: t in Kept(f, RowsOf(feed)) && 0 <= i < |d(t)| ==> d(t)[i].Rows?
    requires forall s :: f.catalog.Some? ==> f.catalog.value(s).Some?
    requires forall s :: f.schema.Some? ==> f.schema.value(s).Some?
    requires forall s :: f.name.Some? ==> f.name.value(s).Some?
    requires forall s :: p.Some? ==> p.value(s).Some?
    ensures Answers(f, feed, p, d)
  {
    hide Judge, Matches, Kept, RowsOf;
    forall t ensures Judge(f, t) != Bad {
      JudgeFails(f, t);
    }
    forall s ensures Matches(p, s) != Bad {
      MatchesMeaning(p, s);
    }
  }

  /** The same listing when no query fails and no pattern ever fails to answer. */
  method ListPlainly(filter: Filter, feed: seq<Fetched<Table>>, pattern: Option<Pattern>, describe: Describer)
    returns (o: Outcome, out: seq<(Table, Column)>)
    requires forall i :: 0 <= i < |feed| ==> feed[i].Rows?
    requires forall t, i :: t in Kept(filter, RowsOf(feed)) && 0 <= i < |describe(t)| ==> describe(t)[i].Rows?
    requires forall s :: filter.catalog.Some? ==> filter.catalog.value(s).Some?
    requires forall s :: filter.schema.Some? ==> filter.schema.value(s).Some?
    requires forall s :: filter.name.Some? ==> filter.name.value(s).Some?
    requires forall s :: pattern.Some? ==> pattern.value(s).Some?
    ensures out == AllColumns(pattern, describe, Kept(filter, RowsOf(feed)))
    ensures o == if Kept(filter, RowsOf(feed)) == [] then NoData else Success
  {
    hide Kept, RowsOf, AllColumns, Answers;
    TotalPatternsAnswer(filter, feed, pattern, describe);
    o, out := ListColumns(filter, feed, pattern, describe);
  }
}
