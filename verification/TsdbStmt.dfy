/** One statement against taosc: who owns each result and each prepared statement, and which field
    every parameter gets.

    The log lists what passes between the driver and taosc.  What taosc answers is an argument of
    the operations. */
module TsdbStmt {
  datatype Option<T> = None | Some(value: T)

  datatype Outcome = Success | Error

  /** A result in the driver's hands: from taos_query, or lent by prepared statement s. */
  datatype Owner = Driver | Stmt2(s: nat)
  datatype Held = Held(id: nat, owner: Owner)

  datatype Call =
    | Queried(id: nat)            // taos_query returned a result
    | Freed(id: nat)              // taos_free_result
    | Inited(s: nat)              // taos_stmt2_init returned a statement
    | Lent(s: nat, id: nat)       // taos_stmt2_exec succeeded and taos_stmt2_result returned a result
    | Executed(s: nat)            // taos_stmt2_exec was called
    | Dropped(id: nat)            // the driver forgets a lent result
    | Closed(s: nat)              // taos_stmt2_close
    | GotFields(s: nat)           // taos_stmt2_get_fields returned an array
    | FreedFields(s: nat)         // taos_stmt2_free_fields

  // ---------------------------------------------------------------- what a log may say

  /** What a log amounts to, read without knowing the driver. */
  datatype Phase = Phase(held: Option<Held>, open: Option<nat>, fields: bool, ids: nat)

  /** The rules of taosc: at most one result and one statement at a time; only a result from
      taos_query is freed, and only while held; a statement runs and closes only while open, with
      none of its results held and no array of fields outstanding. */
  function Next(p: Phase, c: Call): Option<Phase> {
    match c
    case Queried(id) =>
      if p.held.Some? || id != p.ids then None
      else Some(p.(held := Some(Held(id, Driver)), ids := id + 1))
    case Freed(id) => if p.held != Some(Held(id, Driver)) then None else Some(p.(held := None))
    case Inited(s) => if p.open.Some? || s != p.ids then None else Some(p.(open := Some(s), ids := s + 1))
    case Executed(s) => if p.open != Some(s) || p.held.Some? || p.fields then None else Some(p)
    case Lent(s, id) =>
      if p.open != Some(s) || p.held.Some? || id != p.ids then None
      else Some(p.(held := Some(Held(id, Stmt2(s))), ids := id + 1))
    case Dropped(id) =>
      if p.held.None? || p.held.value.id != id || p.held.value.owner.Driver? then None
      else Some(p.(held := None))
    case Closed(s) => if p.open != Some(s) || p.held.Some? || p.fields then None else Some(p.(open := None))
    case GotFields(s) => if p.open != Some(s) || p.fields then None else Some(p.(fields := true))
    case FreedFields(s) => if p.open != Some(s) || !p.fields then None else Some(p.(fields := false))
  }

  function Follow(log: seq<Call>): Option<Phase>
    decreases |log|
  {
    if log == [] then Some(Phase(None, None, false, 0))
    else
      var before := Follow(log[..|log| - 1]);
      if before.None? then None else Next(before.value, log[|log| - 1])
  }

  lemma FollowStep(log: seq<Call>, c: Call)
    ensures Follow(log + [c]) == if Follow(log).None? then None else Next(Follow(log).value, c)
  {
    assert (log + [c])[..|log|] == log;
  }

  /** Results obtained from taos_query, freed, lent; statements opened and closed. */
  function QueryIn(c: Call): seq<nat> {
    if c.Queried? then [c.id] else []
  }

  function FreeIn(c: Call): seq<nat> {
    if c.Freed? then [c.id] else []
  }

  function LoanIn(c: Call): seq<nat> {
    if c.Lent? then [c.id] else []
  }

  function InitIn(c: Call): seq<nat> {
    if c.Inited? then [c.s] else []
  }

  function CloseIn(c: Call): seq<nat> {
    if c.Closed? then [c.s] else []
  }

  /** What f picks out of each call, in order. */
  function Select(log: seq<Call>, f: Call -> seq<nat>): seq<nat> {
    if log == [] then [] else Select(log[..|log| - 1], f) + f(log[|log| - 1])
  }

  function Queries(log: seq<Call>): seq<nat> {
    Select(log, QueryIn)
  }

  function Frees(log: seq<Call>): seq<nat> {
    Select(log, FreeIn)
  }

  function Loans(log: seq<Call>): seq<nat> {
    Select(log, LoanIn)
  }

  function Inits(log: seq<Call>): seq<nat> {
    Select(log, InitIn)
  }

  function Closes(log: seq<Call>): seq<nat> {
    Select(log, CloseIn)
  }

  function HeldByDriver(p: Phase): seq<nat> {
    if p.held.Some? && p.held.value.owner.Driver? then [p.held.value.id] else []
  }

  function OpenOne(p: Phase): seq<nat> {
    if p.open.Some? then [p.open.value] else []
  }

  lemma OwnedStep(p: Phase, c: Call, frees: seq<nat>, closes: seq<nat>)
    requires Next(p, c).Some?
    ensures frees + HeldByDriver(p) + QueryIn(c) == frees + FreeIn(c) + HeldByDriver(Next(p, c).value)
    ensures closes + OpenOne(p) + InitIn(c) == closes + CloseIn(c) + OpenOne(Next(p, c).value)
  {
    assert HeldByDriver(p) + QueryIn(c) == FreeIn(c) + HeldByDriver(Next(p, c).value);
    assert OpenOne(p) + InitIn(c) == CloseIn(c) + OpenOne(Next(p, c).value);
    hide *;
    assert frees + HeldByDriver(p) + QueryIn(c) == frees + (HeldByDriver(p) + QueryIn(c));
    assert closes + OpenOne(p) + InitIn(c) == closes + (OpenOne(p) + InitIn(c));
  }

  /** In a lawful log every result of taos_query is freed once, in order, unless still held, and
      every statement opened is closed once, unless still open. */
  lemma {:induction false} Owned(log: seq<Call>)
    requires Follow(log).Some?
    ensures var p := Follow(log).value;
      Queries(log) == Frees(log) + HeldByDriver(p) && Inits(log) == Closes(log) + OpenOne(p)
    decreases |log|
  {
    if log != [] {
      var front := log[..|log| - 1];
      Owned(front);
      OwnedStep(Follow(front).value, log[|log| - 1], Frees(front), Closes(front));
      hide Next, HeldByDriver, OpenOne, QueryIn, FreeIn, InitIn, CloseIn;
    }
  }

  predicate Below(s: seq<nat>, n: nat) {
    forall i :: 0 <= i < |s| ==> s[i] < n
  }

  predicate Increasing(s: seq<nat>) {
    forall i, j :: 0 <= i < j < |s| ==> s[i] < s[j]
  }

  predicate Apart(s: seq<nat>, t: seq<nat>) {
    forall i, j :: 0 <= i < |s| && 0 <= j < |t| ==> s[i] != t[j]
  }

  predicate Distinct(queries: seq<nat>, loans: seq<nat>, inits: seq<nat>, n: nat) {
    Below(queries, n) && Below(loans, n) && Below(inits, n) && Increasing(queries) && Increasing(inits)
      && Apart(queries, loans)
  }

  lemma BelowMore(s: seq<nat>, n: nat, more: seq<nat>, m: nat)
    requires Below(s, n) && n <= m && Below(more, m)
    ensures Below(s + more, m)
  {
  }

  lemma IncreasingMore(s: seq<nat>, n: nat, x: nat)
    requires Increasing(s) && Below(s, n) && n <= x
    ensures Increasing(s + [x])
  {
  }

  lemma ApartMore(s: seq<nat>, t: seq<nat>, n: nat, x: nat)
    requires Apart(s, t) && Below(s, n) && Below(t, n) && n <= x
    ensures Apart(s + [x], t) && Apart(s, t + [x])
  {
  }

  /** New handles are the next number. */
  lemma NewHandle(p: Phase, c: Call)
    requires Next(p, c).Some?
    ensures var q := Next(p, c).value;
      && p.ids <= q.ids
      && Below(QueryIn(c), q.ids) && Below(LoanIn(c), q.ids) && Below(InitIn(c), q.ids)
      && (QueryIn(c) == [] || QueryIn(c) == [p.ids]) && (LoanIn(c) == [] || LoanIn(c) == [p.ids])
        && (InitIn(c) == [] || InitIn(c) == [p.ids])
      && (QueryIn(c) == [] || LoanIn(c) == [])
  {
  }

  lemma DistinctStep(p: Phase, c: Call, queries: seq<nat>, loans: seq<nat>, inits: seq<nat>)
    requires Next(p, c).Some? && Distinct(queries, loans, inits, p.ids)
    ensures Distinct(queries + QueryIn(c), loans + LoanIn(c), inits + InitIn(c), Next(p, c).value.ids)
  {
    hide Below, Increasing, Apart, Next, QueryIn, LoanIn, InitIn;
    NewHandle(p, c);
    var n, m := p.ids, Next(p, c).value.ids;
    BelowMore(queries, n, QueryIn(c), m);
    BelowMore(loans, n, LoanIn(c), m);
    BelowMore(inits, n, InitIn(c), m);
    IncreasingMore(queries, n, n);
    IncreasingMore(inits, n, n);
    ApartMore(queries, loans, n, n);
    assert queries + [] == queries && loans + [] == loans && inits + [] == inits;
  }

  /** No two results of taos_query and no two statements share a handle, and no result is both lent
      and from taos_query. */
  lemma {:induction false} HandlesDiffer(log: seq<Call>)
    requires Follow(log).Some?
    ensures Distinct(Queries(log), Loans(log), Inits(log), Follow(log).value.ids)
    decreases |log|
  {
    if log != [] {
      var front := log[..|log| - 1];
      HandlesDiffer(front);
      DistinctStep(Follow(front).value, log[|log| - 1], Queries(front), Loans(front), Inits(front));
      hide Next, Distinct, QueryIn, LoanIn, InitIn;
    }
  }

  lemma {:induction false} PrefixLawful(log: seq<Call>, j: nat)
    requires Follow(log).Some? && j <= |log|
    ensures Follow(log[..j]).Some?
    decreases |log|
  {
    if j == |log| {
      assert log[..j] == log;
    } else {
      PrefixLawful(log[..|log| - 1], j);
      assert log[..|log| - 1][..j] == log[..j];
    }
  }

  /** When a statement runs or closes, no result is held, so none that it lent. */
  lemma ClosedFreeOfResults(log: seq<Call>, j: nat)
    requires Follow(log).Some? && j < |log| && (log[j].Closed? || log[j].Executed?)
    ensures Follow(log[..j]).Some? && Follow(log[..j]).value.held.None? && !Follow(log[..j]).value.fields
    ensures Follow(log[..j]).value.open == Some(log[j].s)
  {
    PrefixLawful(log, j);
    PrefixLawful(log, j + 1);
    assert log[..j + 1][..j] == log[..j];
  }

  // ---------------------------------------------------------------- parameters and fields

  /** The copied part of a reported field; type 0 is TSDB_DATA_TYPE_NULL. */
  datatype Desc = Desc(name: string, typ: nat, precision: nat, scale: nat, bytes: nat)

  datatype Kind = TbName | Tag | Col | Other

  datatype Field = Field(kind: Kind, desc: Desc)

  /** _default_param_field: a VARCHAR of 16384 bytes. */
  const DEFAULT_FIELD := Desc("", 8, 0, 0, 16384)

  function OfKind(fields: seq<Field>, kind: Kind): seq<Desc> {
    if fields == [] then []
    else
      OfKind(fields[..|fields| - 1], kind)
      + (if fields[|fields| - 1].kind == kind then [fields[|fields| - 1].desc] else [])
  }

  lemma {:induction false} OfKindGrows(fields: seq<Field>, kind: Kind, i: nat)
    requires i <= |fields|
    ensures |OfKind(fields[..i], kind)| <= |OfKind(fields, kind)|
    decreases |fields|
  {
    if i < |fields| {
      OfKindGrows(fields[..|fields| - 1], kind, i);
      assert fields[..|fields| - 1][..i] == fields[..i];
    } else {
      assert fields[..i] == fields;
    }
  }

  lemma OfKindNext(fields: seq<Field>, kind: Kind, i: nat)
    requires i < |fields|
    ensures OfKind(fields[..i + 1], kind) == OfKind(fields[..i], kind)
      + (if fields[i].kind == kind then [fields[i].desc] else [])
    ensures |OfKind(fields[..i + 1], kind)| <= |OfKind(fields, kind)|
  {
    assert fields[..i + 1][..i] == fields[..i];
    OfKindGrows(fields, kind, i + 1);
  }

  /** _tsdb_stmt_copy_fields_by_type: count, allocate, fill. */
  method CopyByKind(src: seq<Field>, kind: Kind) returns (dst: seq<Desc>)
    ensures dst == OfKind(src, kind)
  {
    var nr := 0;
    for i := 0 to |src|
      invariant nr == |OfKind(src[..i], kind)|
    {
      OfKindNext(src, kind, i);
      if src[i].kind == kind { nr := nr + 1; }
    }
    assert src[..|src|] == src;
    if nr == 0 { return []; }
    var fields := new Desc[nr](_ => DEFAULT_FIELD);
    var j := 0;
    for i := 0 to |src|
      invariant j == |OfKind(src[..i], kind)| <= nr && fields[..j] == OfKind(src[..i], kind)
    {
      OfKindNext(src, kind, i);
      if src[i].kind == kind {
        fields[j] := src[i].desc;
        j := j + 1;
      }
    }
    return fields[..];
  }

  /** What an insert's parameters are: the table name if any field reports one, then all tags, then
      all columns, in the order reported. */
  function InsertParams(fields: seq<Field>): seq<Desc> {
    (if exists i :: 0 <= i < |fields| && fields[i].kind == TbName then [DEFAULT_FIELD] else [])
    + OfKind(fields, Tag) + OfKind(fields, Col)
  }

  /** Any other statement's: the reported field, or the default where its type is not known. */
  function OtherParams(descs: seq<Desc>, count: nat): seq<Desc> {
    seq(count, i requires 0 <= i < count => if i < |descs| && descs[i].typ != 0 then descs[i] else DEFAULT_FIELD)
  }

  function Descs(fields: Option<seq<Field>>): seq<Desc> {
    if fields.None? then [] else seq(|fields.value|, i requires 0 <= i < |fields.value| => fields.value[i].desc)
  }

  /** A 16-bit counter (SQLSMALLINT). */
  function Wrap16(n: int): (w: int)
    ensures -0x8000 <= w < 0x8000 && (n - w) % 0x1_0000 == 0
    ensures 0 <= n ==> w <= n && (n < 0x8000 <==> w == n)
    ensures -0x8000 <= n < 0x8000 ==> w == n
  {
    (n + 0x8000) % 0x1_0000 - 0x8000
  }

  // ---------------------------------------------------------------- the operations

  /** What taosc answers to a prepare.  fields is None for a null array; count is then what it says
      the number of fields is. */
  datatype Preparation = Preparation(
    initOk: bool, prepareOk: bool, kindOk: bool, insert: bool, fieldsOk: bool, fields: Option<seq<Field>>, count: nat)

  /** What taosc answers to an execute, and the COUNT fields of the two parameter descriptors. */
  datatype Execution = Execution(apd: int, ipd: int, execOk: bool, result: bool, errno: int, precision: int)

  /** The part of a statement that decides who owns what.  ids numbers the handles that taosc gives
      out; log is what has passed between it and the driver. */
  datatype Book = Book(
    res: Option<Held>, stmt: Option<nat>, sql: bool, qms: nat, nrParams: int, ids: nat, log: seq<Call>)

  const EMPTY_BOOK := Book(None, None, false, 0, 0, 0, [])

  /** tsdb_res_reset: a result of taos_query is freed, a lent one forgotten. */
  function DropCalls(res: Option<Held>): seq<Call> {
    if res.None? then [] else if res.value.owner.Driver? then [Freed(res.value.id)] else [Dropped(res.value.id)]
  }

  /** tsdb_stmt_reset: the result goes, then the statement. */
  function CloseCalls(res: Option<Held>, stmt: Option<nat>): seq<Call> {
    DropCalls(res) + if stmt.Some? then [Closed(stmt.value)] else []
  }

  /** The array of fields is borrowed and returned. */
  function BorrowCalls(a: Preparation, s: nat): seq<Call> {
    if a.fields.Some? then [GotFields(s), FreedFields(s)] else []
  }

  /** Whether a statement is left open: only a failed prepare, a failed question for its kind, and
      failed fields of a statement that is no insert close it again. */
  predicate StaysOpen(a: Preparation) {
    a.initOk && a.prepareOk && a.kindOk && (a.insert || a.fieldsOk)
  }

  /** _tsdb_stmt_prepare for the new statement s. */
  function PrepareCalls(a: Preparation, s: nat): seq<Call> {
    if !a.initOk then []
    else if !StaysOpen(a) then [Inited(s), Closed(s)]
    else [Inited(s)] + if a.fieldsOk then BorrowCalls(a, s) else []
  }

  function ParamsKnown(a: Preparation, placeholders: nat): int {
    if !StaysOpen(a) || !a.fieldsOk then 0
    else if a.insert then Wrap16(|ParamsOf(a)|)
    else if a.count == placeholders then a.count
    else 0
  }

  function DropRes(b: Book): Book {
    b.(res := None, log := b.log + DropCalls(b.res))
  }

  function Close(b: Book): Book {
    b.(res := None, stmt := None, log := b.log + CloseCalls(b.res, b.stmt))
  }

  function Forget(b: Book): Book {
    b.(sql := false, qms := 0, nrParams := 0)
  }

  /** _prepare. */
  function PrepareBook(b: Book, placeholders: nat, a: Preparation): Book {
    if placeholders == 0 then Close(b).(sql := true, qms := 0, nrParams := 0)
    else
      Book(None, if StaysOpen(a) then Some(b.ids) else None, true, placeholders, ParamsKnown(a, placeholders),
           if a.initOk then b.ids + 1 else b.ids, b.log + CloseCalls(b.res, b.stmt) + PrepareCalls(a, b.ids))
  }

  /** The checks of _execute before anything is asked of taosc. */
  predicate Bound(b: Book, x: Execution) {
    x.apd == x.ipd && x.apd >= Wrap16(b.nrParams) && (b.qms == 0 ==> x.apd <= 0)
  }

  /** Whether an execute makes taos_query return a result. */
  predicate Asks(b: Book, x: Execution) {
    Bound(b, x) && b.qms == 0 && x.result
  }

  /** Whether an execute runs the prepared statement, and whether that lends a result. */
  predicate Runs(b: Book, x: Execution) {
    Bound(b, x) && b.qms > 0 && b.stmt.Some?
  }

  predicate Lends(b: Book, x: Execution) {
    Runs(b, x) && x.execOk && x.result
  }

  function ExecuteCalls(b: Book, x: Execution): seq<Call> {
    if Asks(b, x) then [Queried(b.ids)]
    else if Lends(b, x) then [Executed(b.stmt.value), Lent(b.stmt.value, b.ids)]
    else if Runs(b, x) then [Executed(b.stmt.value)]
    else []
  }

  /** _execute. */
  function ExecuteBook(b: Book, x: Execution): Book {
    b.(res := if Asks(b, x) then Some(Held(b.ids, Driver))
              else if Lends(b, x) then Some(Held(b.ids, Stmt2(b.stmt.value)))
              else None,
       ids := if Asks(b, x) || Lends(b, x) then b.ids + 1 else b.ids,
       log := b.log + DropCalls(b.res) + ExecuteCalls(b, x))
  }

  function ParamsOf(a: Preparation): seq<Desc> {
    if a.insert then InsertParams(if a.fields.Some? then a.fields.value else [])
      else OtherParams(Descs(a.fields), a.count)
  }

  /** When preparing a statement with placeholders succeeds. */
  predicate Prepares(a: Preparation, placeholders: nat) {
    && a.initOk && a.prepareOk && a.kindOk && a.fieldsOk
    && 0 < placeholders == Wrap16(|ParamsOf(a)|) && (a.insert || placeholders == a.count)
  }

  /** Parameter i of a prepared insert: the table name, a tag, or a column. */
  lemma ParamPositions(a: Preparation, placeholders: nat, i: nat)
    requires Prepares(a, placeholders) && a.insert && a.fields.Some? && i < placeholders
    ensures var fields := a.fields.value;
      var named := if exists j :: 0 <= j < |fields| && fields[j].kind == TbName then 1 else 0;
      && placeholders <= |ParamsOf(a)|
      && ParamsOf(a)[i] ==
         if i < named then Desc("", 8, 0, 0, 16384)
         else if i < named + |OfKind(fields, Tag)| then OfKind(fields, Tag)[i - named]
         else OfKind(fields, Col)[i - named - |OfKind(fields, Tag)|]
  {
  }

  /** The list of parameters is as long as the placeholder count exactly when a 16-bit counter can
      hold its length. */
  lemma ParamCount(a: Preparation, placeholders: nat)
    requires Prepares(a, placeholders)
    ensures |ParamsOf(a)| == placeholders <==> |ParamsOf(a)| < 0x8000
  {
  }

  /** An insert that reports n columns. */
  function Columns(n: nat): seq<Field> {
    if n == 0 then [] else Columns(n - 1) + [Field(Col, DEFAULT_FIELD)]
  }

  lemma {:induction false} ColumnsOnly(n: nat)
    ensures |OfKind(Columns(n), Col)| == n && OfKind(Columns(n), Tag) == []
    ensures forall i :: 0 <= i < |Columns(n)| ==> Columns(n)[i].kind == Col
  {
    if n > 0 {
      ColumnsOnly(n - 1);
      assert Columns(n)[..|Columns(n)| - 1] == Columns(n - 1);
    }
  }

  /** Past that bound the count wraps: 65537 reported columns pass for one placeholder. */
  lemma CountWraps()
    ensures var a := Preparation(true, true, true, true, true, Some(Columns(65537)), 65537);
      Prepares(a, 1) && |ParamsOf(a)| == 65537
  {
    ColumnsOnly(65537);
  }

  // ---------------------------------------------------------------- the C functions

  /** tsdb_stmt_t and the parts of its owner that prepare fills in. */
  class Statement {
    var res: Option<Held>
    var needsFree: bool
    var stmt: Option<nat>
    var sql: bool
    var qms: nat
    var nrParams: int
    var insert: bool
    var subtbl: bool
    var tags: seq<Desc>
    var cols: seq<Desc>
    var params: seq<Desc>
    var ids: nat
    ghost var log: seq<Call>

    /** res_needs_free marks exactly the results of taos_query. */
    ghost predicate Valid()
      reads this`res, this`needsFree
    {
      needsFree <==> res.Some? && res.value.owner.Driver?
    }

    ghost function Now(): Book
      reads this`res, this`stmt, this`sql, this`qms, this`nrParams, this`ids, this`log
    {
      Book(res, stmt, sql, qms, nrParams, ids, log)
    }

    constructor ()
      ensures Valid() && Now() == EMPTY_BOOK
    {
      res, needsFree, stmt, sql, qms, nrParams := None, false, None, false, 0, 0;
      insert, subtbl, tags, cols, params, ids, log := false, false, [], [], [], 0, [];
    }

    /** tsdb_res_reset. */
    method ResetRes()
      requires Valid()
      modifies this`res, this`needsFree, this`log
      ensures Valid() && Now() == DropRes(old(Now()))
    {
      log := log + if needsFree then [Freed(res.value.id)] else if res.Some? then [Dropped(res.value.id)] else [];
      needsFree, res := false, None;
    }

    /** tsdb_stmt_reset. */
    method Reset()
      requires Valid()
      modifies this`res, this`needsFree, this`stmt, this`log
      ensures Valid() && Now() == Close(old(Now()))
    {
      ghost var was := log;
      ghost var dropped := DropCalls(res);
      ResetRes();
      if stmt.Some? {
        log := log + [Closed(stmt.value)];
        assert was + dropped + [Closed(stmt.value)] == was + (dropped + [Closed(stmt.value)]);
        stmt := None;
      }
      assert dropped + [] == dropped;
    }

    /** tsdb_stmt_unprepare. */
    method Unprepare()
      modifies this`sql, this`qms, this`nrParams, this`insert, this`subtbl, this`tags, this`cols
      ensures Now() == Forget(old(Now())) && !insert && !subtbl && tags == [] && cols == []
    {
      sql, qms, nrParams, insert, subtbl, tags, cols := false, 0, 0, false, false, [], [];
    }

    /** The fields of all parameters of the prepared statement. */
    ghost function Listed(): (r: seq<Desc>)
      reads this
      ensures |r| ==
        if insert then (if subtbl then 1 else 0) + |tags| + |cols|
        else if nrParams < 0 then 0
        else nrParams
    {
      if insert then (if subtbl then [DEFAULT_FIELD] else []) + tags + cols
      else OtherParams(cols, if nrParams < 0 then 0 else nrParams)
    }

    /** _tsdb_stmt_get_tsdb_field_by_tsdb_params. */
    method FieldOfParam(i: nat) returns (d: Desc)
      requires i < |Listed()|
      ensures d == Listed()[i]
    {
      if !insert {
        if i < |cols| && cols[i].typ != 0 { return cols[i]; }
        return DEFAULT_FIELD;
      }
      if i == 0 && subtbl { return DEFAULT_FIELD; }
      var k := if subtbl then i - 1 else i;
      if k < |tags| { return tags[k]; }
      return cols[k - |tags|];
    }

    /** _tsdb_stmt_post_check, when memory is available. */
    method PostCheck() returns (o: Outcome)
      requires !insert ==> nrParams >= 0
      modifies this`nrParams, this`params
      ensures nrParams == if insert then Wrap16(old(|Listed()|)) else old(nrParams)
      ensures Listed() == old(Listed())
      ensures o == Success <==> 0 < qms == Wrap16(|Listed()|) && (insert || qms == nrParams)
      ensures o == Success ==> qms <= |Listed()| && params == Listed()[..qms]
    {
      ghost var was := Listed();
      if insert { nrParams := Wrap16((if subtbl then 1 else 0) + |tags| + |cols|); }
      assert Listed() == was;
      var n := if insert then nrParams else Wrap16(nrParams);
      if n <= 0 { return Error; }
      if n != qms { return Error; }
      if !insert && n != nrParams { return Error; }
      var filled := new Desc[n](_ => DEFAULT_FIELD);
      for i := 0 to n
        invariant nrParams == n <= |was| && Listed() == was && filled[..i] == was[..i]
      {
        var d := FieldOfParam(i);
        filled[i] := d;
      }
      params := filled[..];
      return Success;
    }

    /** _tsdb_stmt_get_taos_params_for_non_insert. */
    method ParamsForOther(a: Preparation) returns (o: Outcome)
      requires Valid() && stmt.Some? && !insert && cols == [] && nrParams == 0
      modifies this`res, this`needsFree, this`stmt, this`nrParams, this`cols, this`log
      ensures Valid()
      ensures o == Success <==> a.fieldsOk && qms == a.count
      ensures o == Success ==> nrParams == a.count && cols == Descs(a.fields)
      ensures Now() ==
        if !a.fieldsOk then Close(old(Now()))
        else old(Now()).(nrParams := if a.count == qms then a.count else 0,
                         log := old(log) + BorrowCalls(a, old(stmt).value))
    {
      if !a.fieldsOk {
        Reset();
        return Error;
      }
      ghost var was := log;
      if a.fields.Some? { log := log + [GotFields(stmt.value)]; }
      if a.count != qms {
        if a.fields.Some? { log := log + [FreedFields(stmt.value)]; }
        assert log == was + BorrowCalls(a, stmt.value);
        return Error;
      }
      if a.fields.Some? { cols := Descs(a.fields); }
      nrParams := a.count;
      if a.fields.Some? { log := log + [FreedFields(stmt.value)]; }
      assert log == was + BorrowCalls(a, stmt.value);
      return Success;
    }

    /** _tsdb_stmt_get_taos_tags_cols_for_insert. */
    method FieldsForInsert(a: Preparation) returns (o: Outcome)
      requires stmt.Some? && insert && !subtbl && tags == [] && cols == []
      modifies this`subtbl, this`tags, this`cols, this`log
      ensures o == Success <==> a.fieldsOk
      ensures o == Success ==> Listed() == InsertParams(if a.fields.Some? then a.fields.value else [])
      ensures log == old(log) + if a.fieldsOk then BorrowCalls(a, stmt.value) else []
    {
      hide OfKind;
      ghost var was := log;
      if !a.fieldsOk {
        assert log + [] == log;
        return Error;
      }
      var fields := [];
      if a.fields.Some? {
        fields := a.fields.value;
        log := log + [GotFields(stmt.value)];
      }
      var nrTbNames := 0;
      for i := 0 to |fields|
        invariant nrTbNames > 0 <==> exists j :: 0 <= j < i && fields[j].kind == TbName
      {
        if fields[i].kind == TbName { nrTbNames := nrTbNames + 1; }
      }
      tags := CopyByKind(fields, Tag);
      cols := CopyByKind(fields, Col);
      subtbl := nrTbNames > 0;
      if a.fields.Some? { log := log + [FreedFields(stmt.value)]; }
      assert log == was + BorrowCalls(a, stmt.value);
      return Success;
    }

    /** _tsdb_stmt_prepare. */
    method PrepareStmt(a: Preparation) returns (o: Outcome)
      requires Valid() && res == None && stmt == None && !insert && !subtbl && tags == [] && cols == [] && nrParams == 0
      modifies this
      ensures Valid() && res == None && qms == old(qms) && sql == old(sql) && nrParams == ParamsKnown(a, qms)
      ensures stmt == (if StaysOpen(a) then Some(old(ids)) else None) && ids == old(ids) + if a.initOk then 1 else 0
      ensures log == old(log) + PrepareCalls(a, old(ids))
      ensures o == Success <==> Prepares(a, qms)
      ensures o == Success ==> insert == a.insert && params == ParamsOf(a)[..qms]
    {
      hide InsertParams, OtherParams, Descs, BorrowCalls, Close;
      ghost var was, s := log, ids;
      if !a.initOk {
        assert was + [] == was;
        return Error;
      }
      stmt, ids, log := Some(ids), ids + 1, log + [Inited(ids)];
      CloseOnly(Now());
      assert was + [Inited(s)] + [Closed(s)] == was + [Inited(s), Closed(s)];
      if !a.prepareOk {
        Reset();
        return Error;
      }
      if !a.kindOk {
        Reset();
        return Error;
      }
      insert := a.insert;
      if !insert {
        o := ParamsForOther(a);
      } else {
        o := FieldsForInsert(a);
      }
      BorrowAppends(was, a, s);
      if o != Success { return Error; }
      assert Listed() == ParamsOf(a);
      o := PostCheck();
    }

    lemma CloseOnly(b: Book)
      requires b.res.None? && b.stmt.Some?
      ensures Close(b) == b.(stmt := None, log := b.log + [Closed(b.stmt.value)])
    {
      assert [] + [Closed(b.stmt.value)] == [Closed(b.stmt.value)];
    }

    lemma BorrowAppends(was: seq<Call>, a: Preparation, s: nat)
      ensures was + [Inited(s)] + BorrowCalls(a, s) == was + ([Inited(s)] + BorrowCalls(a, s))
      ensures was + [Inited(s)] + [] == was + ([Inited(s)] + [])
    {
    }

    /** _prepare: what was there before is closed first; a statement without placeholders is only
        remembered. */
    method Prepare(placeholders: nat, a: Preparation) returns (o: Outcome)
      requires Valid()
      modifies this
      ensures Valid() && Now() == PrepareBook(old(Now()), placeholders, a)
      ensures o == Success <==> placeholders == 0 || Prepares(a, placeholders)
      ensures o == Success && placeholders > 0 ==> params == ParamsOf(a)[..placeholders]
    {
      hide ParamsKnown, PrepareCalls, DropCalls, Prepares, ParamsOf;
      Unprepare();
      Reset();
      sql := true;
      if placeholders == 0 { return Success; }
      qms := placeholders;
      o := PrepareStmt(a);
    }

    /** _stmt_post_query. */
    method PostQuery(precision: int) returns (o: Outcome)
      ensures o == Error <==> res.Some? && !(0 <= precision <= 2)
    {
      if res.Some? && (precision < 0 || precision > 2) { return Error; }
      return Success;
    }

    /** _query. */
    method Query(x: Execution) returns (o: Outcome)
      requires Valid()
      modifies this`res, this`needsFree, this`ids, this`log
      ensures Valid() && res == if x.result then Some(Held(old(ids), Driver)) else None
      ensures ids == old(ids) + if x.result then 1 else 0
      ensures log == old(log) + DropCalls(old(res)) + if x.result then [Queried(old(ids))] else []
      ensures o == Success <==> x.errno == 0 && (x.result ==> 0 <= x.precision <= 2)
    {
      ResetRes();
      assert log + [] == log;
      if x.result {
        res, ids, log := Some(Held(ids, Driver)), ids + 1, log + [Queried(ids)];
      }
      needsFree := x.result;
      if x.errno != 0 { return Error; }
      o := PostQuery(x.precision);
    }

    /** _execute.  Running a statement that is not open fails. */
    method Execute(x: Execution) returns (o: Outcome)
      requires Valid() && (sql || qms > 0)
      modifies this`res, this`needsFree, this`ids, this`log
      ensures Valid() && Now() == ExecuteBook(old(Now()), x)
      ensures o == Success <==>
        && x.apd == x.ipd && x.apd >= Wrap16(nrParams)
        && x.errno == 0 && (x.result ==> 0 <= x.precision <= 2)
        && (if qms == 0 then x.apd <= 0 else stmt.Some? && x.execOk)
    {
      ResetRes();
      ghost var before := log;
      assert before + [] == before;
      if x.apd != x.ipd { return Error; }
      if x.apd < Wrap16(nrParams) { return Error; }
      if qms == 0 {
        if x.apd > 0 { return Error; }
        o := Query(x);
        return;
      }
      if stmt.None? { return Error; }
      log := log + [Executed(stmt.value)];
      if !x.execOk { return Error; }
      if x.result {
        assert before + [Executed(stmt.value)] + [Lent(stmt.value, ids)]
            == before + [Executed(stmt.value), Lent(stmt.value, ids)];
        log := log + [Lent(stmt.value, ids)];
        res, ids := Some(Held(ids, Stmt2(stmt.value))), ids + 1;
      }
      needsFree := false;
      if x.errno != 0 { return Error; }
      o := PostQuery(x.precision);
    }
  }

  // ---------------------------------------------------------------- every run

  datatype Op =
    | PrepareOp(placeholders: nat, a: Preparation)
    | ExecuteOp(x: Execution)
    | CloseCursorOp
    | ResetOp
    | UnprepareOp

  /** An execute with nothing prepared is not passed on. */
  function Apply(b: Book, op: Op): Book {
    match op
    case PrepareOp(placeholders, a) => PrepareBook(b, placeholders, a)
    case ExecuteOp(x) => if b.sql || b.qms > 0 then ExecuteBook(b, x) else b
    case CloseCursorOp => DropRes(b)
    case ResetOp => Close(b)
    case UnprepareOp => Forget(b)
  }

  function Run(ops: seq<Op>): Book {
    if ops == [] then EMPTY_BOOK else Apply(Run(ops[..|ops| - 1]), ops[|ops| - 1])
  }

  /** The log obeys taosc's rules and says what the book says. */
  predicate Lawful(b: Book) {
    Follow(b.log) == Some(Phase(b.res, b.stmt, false, b.ids))
  }

  /** A few calls in a row. */
  function Through(p: Phase, calls: seq<Call>): Option<Phase>
    decreases |calls|
  {
    if calls == [] then Some(p)
    else if Next(p, calls[0]).None? then None
    else Through(Next(p, calls[0]).value, calls[1..])
  }

  lemma {:induction false} FollowThrough(log: seq<Call>, calls: seq<Call>)
    requires Follow(log).Some?
    ensures Follow(log + calls) == Through(Follow(log).value, calls)
    decreases |calls|
  {
    if calls == [] {
      assert log + calls == log;
    } else {
      FollowStep(log, calls[0]);
      var more := log + [calls[0]];
      assert log + calls == more + calls[1..];
      if Next(Follow(log).value, calls[0]).None? {
        StaysUnlawful(more, calls[1..]);
      } else {
        FollowThrough(more, calls[1..]);
      }
    }
  }

  lemma {:induction false} StaysUnlawful(log: seq<Call>, calls: seq<Call>)
    requires Follow(log).None?
    ensures Follow(log + calls).None?
    decreases |calls|
  {
    if calls == [] {
      assert log + calls == log;
    } else {
      FollowStep(log, calls[0]);
      assert log + calls == log + [calls[0]] + calls[1..];
      StaysUnlawful(log + [calls[0]], calls[1..]);
    }
  }

  lemma ThroughTwo(p: Phase, c: Call, d: Call)
    requires Next(p, c).Some?
    ensures Through(p, [c, d]) == Next(Next(p, c).value, d)
  {
    assert [c, d][1..] == [d] && [d][1..] == [];
    var q := Next(p, c).value;
    assert Through(q, [d]) == if Next(q, d).None? then None else Through(Next(q, d).value, []);
  }

  lemma DropThrough(p: Phase)
    ensures Through(p, DropCalls(p.held)) == Some(p.(held := None))
  {
  }

  lemma CloseLawful(b: Book)
    requires Lawful(b)
    ensures Lawful(DropRes(b)) && Lawful(Close(b))
  {
    hide Follow, Through, DropCalls;
    var p := Phase(b.res, b.stmt, false, b.ids);
    DropThrough(p);
    FollowThrough(b.log, DropCalls(b.res));
    var log := b.log + DropCalls(b.res);
    if b.stmt.Some? {
      FollowStep(log, Closed(b.stmt.value));
      assert log + [Closed(b.stmt.value)] == b.log + CloseCalls(b.res, b.stmt);
    } else {
      assert b.log + CloseCalls(b.res, b.stmt) == log;
    }
  }

  lemma PrepareThrough(a: Preparation, s: nat)
    ensures Through(Phase(None, None, false, s), PrepareCalls(a, s))
         == Some(Phase(None, if StaysOpen(a) then Some(s) else None, false, if a.initOk then s + 1 else s))
  {
    var p := Phase(None, Some(s), false, s + 1);
    assert Through(p, [Closed(s)]) == Some(p.(open := None)) by {
      assert [Closed(s)][1..] == [];
    }
    ThroughTwo(p, GotFields(s), FreedFields(s));
    assert Through(p, BorrowCalls(a, s)) == Some(p);
    var calls := PrepareCalls(a, s);
    if a.initOk {
      assert calls[0] == Inited(s);
      assert calls[1..] == if !StaysOpen(a) then [Closed(s)] else if a.fieldsOk then BorrowCalls(a, s) else [];
    }
  }

  lemma ExecuteThrough(b: Book, x: Execution)
    ensures Through(Phase(None, b.stmt, false, b.ids), ExecuteCalls(b, x))
         == Some(Phase(ExecuteBook(b, x).res, b.stmt, false, ExecuteBook(b, x).ids))
  {
    if Lends(b, x) {
      var s := b.stmt.value;
      ThroughTwo(Phase(None, b.stmt, false, b.ids), Executed(s), Lent(s, b.ids));
    }
  }

  lemma ApplyLawful(b: Book, op: Op)
    requires Lawful(b)
    ensures Lawful(Apply(b, op))
  {
    CloseLawful(b);
    match op
    case PrepareOp(placeholders, a) =>
      PrepareThrough(a, b.ids);
      FollowThrough(Close(b).log, PrepareCalls(a, b.ids));
    case ExecuteOp(x) =>
      ExecuteThrough(b, x);
      FollowThrough(DropRes(b).log, ExecuteCalls(b, x));
    case _ =>
  }

  lemma {:induction false} RunLawful(ops: seq<Op>)
    ensures Lawful(Run(ops))
  {
    if ops != [] {
      RunLawful(ops[..|ops| - 1]);
      ApplyLawful(Run(ops[..|ops| - 1]), ops[|ops| - 1]);
    }
  }

  // ---------------------------------------------------------------- what a run hands out

  /** The results that taos_query returns in a run, those lent by prepared statements, and the
      prepared statements: told from the operations and taosc's answers, not from the log. */
  function Asked(ops: seq<Op>): seq<nat> {
    if ops == [] then []
    else
      var b, op := Run(ops[..|ops| - 1]), ops[|ops| - 1];
      Asked(ops[..|ops| - 1]) + if op.ExecuteOp? && b.sql && Asks(b, op.x) then [b.ids] else []
  }

  function Lent2(ops: seq<Op>): seq<nat> {
    if ops == [] then []
    else
      var b, op := Run(ops[..|ops| - 1]), ops[|ops| - 1];
      Lent2(ops[..|ops| - 1]) + if op.ExecuteOp? && Lends(b, op.x) then [b.ids] else []
  }

  function Opened(ops: seq<Op>): seq<nat> {
    if ops == [] then []
    else
      var b, op := Run(ops[..|ops| - 1]), ops[|ops| - 1];
      Opened(ops[..|ops| - 1]) + if op.PrepareOp? && op.placeholders > 0 && op.a.initOk then [b.ids] else []
  }

  lemma {:induction false} SelectConcat(a: seq<Call>, b: seq<Call>, f: Call -> seq<nat>)
    ensures Select(a + b, f) == Select(a, f) + Select(b, f)
    decreases |b|
  {
    if b == [] {
      assert a + b == a;
    } else {
      assert (a + b)[..|a + b| - 1] == a + b[..|b| - 1];
      SelectConcat(a, b[..|b| - 1], f);
    }
  }

  lemma SelectFew(c: Call, d: Call, f: Call -> seq<nat>)
    ensures Select([], f) == [] && Select([c], f) == f(c) && Select([c, d], f) == f(c) + f(d)
  {
    assert [c][..0] == [] && [c, d][..1] == [c];
  }

  /** Closing hands out nothing. */
  lemma CloseHandsOut(res: Option<Held>, stmt: Option<nat>)
    ensures Queries(DropCalls(res)) == Loans(DropCalls(res)) == Inits(DropCalls(res)) == []
    ensures Queries(CloseCalls(res, stmt)) == Loans(CloseCalls(res, stmt)) == Inits(CloseCalls(res, stmt)) == []
  {
    var drop := DropCalls(res);
    var close := if stmt.Some? then [Closed(stmt.value)] else [];
    forall f: Call -> seq<nat> | f == QueryIn || f == LoanIn || f == InitIn
      ensures Select(drop, f) == [] && Select(close, f) == [] && Select(drop + close, f) == []
    {
      Nothing(drop, f);
      Nothing(close, f);
      SelectConcat(drop, close, f);
    }
  }

  lemma Nothing(calls: seq<Call>, f: Call -> seq<nat>)
    requires |calls| <= 1 && forall c :: c in calls ==> f(c) == []
    ensures Select(calls, f) == []
  {
    if calls != [] {
      assert calls[..0] == [];
    }
  }

  lemma PrepareHandsOut(a: Preparation, s: nat)
    ensures Queries(PrepareCalls(a, s)) == Loans(PrepareCalls(a, s)) == []
    ensures Inits(PrepareCalls(a, s)) == if a.initOk then [s] else []
  {
    forall f: Call -> seq<nat> | f == QueryIn || f == LoanIn || f == InitIn
      ensures Select(PrepareCalls(a, s), f) == if a.initOk then f(Inited(s)) else []
    {
      SelectFew(Inited(s), Closed(s), f);
      SelectFew(GotFields(s), FreedFields(s), f);
      SelectConcat([Inited(s)], BorrowCalls(a, s), f);
      SelectConcat([Inited(s)], [], f);
    }
  }

  lemma ExecuteHandsOut(b: Book, x: Execution)
    ensures Queries(ExecuteCalls(b, x)) == if Asks(b, x) then [b.ids] else []
    ensures Loans(ExecuteCalls(b, x)) == if Lends(b, x) then [b.ids] else []
    ensures Inits(ExecuteCalls(b, x)) == []
  {
    var s := if b.stmt.Some? then b.stmt.value else 0;
    forall f: Call -> seq<nat> | f == QueryIn || f == LoanIn || f == InitIn
      ensures Select(ExecuteCalls(b, x), f)
           == if Asks(b, x) then f(Queried(b.ids)) else if Lends(b, x) then f(Lent(s, b.ids)) else []
    {
      SelectFew(Queried(b.ids), Queried(b.ids), f);
      SelectFew(Executed(s), Lent(s, b.ids), f);
    }
  }

  /** What longer logs hand out. */
  lemma LogHandsOut(log: seq<Call>, c: seq<Call>, d: seq<Call>)
    ensures Queries(log + c + d) == Queries(log) + Queries(c) + Queries(d)
    ensures Loans(log + c + d) == Loans(log) + Loans(c) + Loans(d)
    ensures Inits(log + c + d) == Inits(log) + Inits(c) + Inits(d)
  {
    hide Select;
    SelectConcat(log, c, QueryIn);
    SelectConcat(log + c, d, QueryIn);
    SelectConcat(log, c, LoanIn);
    SelectConcat(log + c, d, LoanIn);
    SelectConcat(log, c, InitIn);
    SelectConcat(log + c, d, InitIn);
  }

  lemma PrepareLogHandsOut(b: Book, placeholders: nat, a: Preparation)
    ensures var log := PrepareBook(b, placeholders, a).log;
      && Queries(log) == Queries(b.log) && Loans(log) == Loans(b.log)
      && Inits(log) == Inits(b.log) + if placeholders > 0 && a.initOk then [b.ids] else []
  {
    hide Queries, Loans, Inits, PrepareCalls, CloseCalls, StaysOpen, ParamsKnown;
    CloseHandsOut(b.res, b.stmt);
    PrepareHandsOut(a, b.ids);
    NoneHandsOut();
    var c := CloseCalls(b.res, b.stmt);
    LogHandsOut(b.log, c, if placeholders == 0 then [] else PrepareCalls(a, b.ids));
    assert b.log + c + [] == b.log + c;
  }

  lemma NoneHandsOut()
    ensures Queries([]) == Loans([]) == Inits([]) == []
  {
  }

  lemma ExecuteLogHandsOut(b: Book, x: Execution)
    ensures var log := ExecuteBook(b, x).log;
      && Queries(log) == Queries(b.log) + (if Asks(b, x) then [b.ids] else [])
      && Loans(log) == Loans(b.log) + (if Lends(b, x) then [b.ids] else [])
      && Inits(log) == Inits(b.log)
  {
    hide Queries, Loans, Inits, ExecuteCalls, DropCalls, Asks, Lends;
    CloseHandsOut(b.res, b.stmt);
    ExecuteHandsOut(b, x);
    LogHandsOut(b.log, DropCalls(b.res), ExecuteCalls(b, x));
  }

  lemma CloseLogHandsOut(b: Book)
    ensures Queries(Close(b).log) == Queries(DropRes(b).log) == Queries(b.log)
    ensures Loans(Close(b).log) == Loans(DropRes(b).log) == Loans(b.log)
    ensures Inits(Close(b).log) == Inits(DropRes(b).log) == Inits(b.log)
  {
    hide Queries, Loans, Inits, DropCalls, CloseCalls;
    CloseHandsOut(b.res, b.stmt);
    NoneHandsOut();
    LogHandsOut(b.log, DropCalls(b.res), []);
    LogHandsOut(b.log, CloseCalls(b.res, b.stmt), []);
    assert b.log + DropCalls(b.res) + [] == b.log + DropCalls(b.res);
    assert b.log + CloseCalls(b.res, b.stmt) + [] == b.log + CloseCalls(b.res, b.stmt);
  }

  lemma ApplyHandsOut(b: Book, op: Op)
    ensures var t := Apply(b, op);
      && Queries(t.log) == Queries(b.log) + (if op.ExecuteOp? && b.sql && Asks(b, op.x) then [b.ids] else [])
      && Loans(t.log) == Loans(b.log) + (if op.ExecuteOp? && Lends(b, op.x) then [b.ids] else [])
      && Inits(t.log) == Inits(b.log) + (if op.PrepareOp? && op.placeholders > 0 && op.a.initOk then [b.ids] else [])
  {
    hide Queries, Loans, Inits, PrepareBook, ExecuteBook, Close, DropRes, Bound;
    match op
    case PrepareOp(placeholders, a) => PrepareLogHandsOut(b, placeholders, a);
    case ExecuteOp(x) => ExecuteLogHandsOut(b, x);
    case UnprepareOp =>
    case _ => CloseLogHandsOut(b);
  }

  lemma {:induction false} RunHandsOut(ops: seq<Op>)
    ensures var log := Run(ops).log; Queries(log) == Asked(ops) && Loans(log) == Lent2(ops) && Inits(log) == Opened(ops)
  {
    if ops != [] {
      RunHandsOut(ops[..|ops| - 1]);
      ApplyHandsOut(Run(ops[..|ops| - 1]), ops[|ops| - 1]);
    }
  }

  /** Over any sequence of operations, failing ones included: the results freed, in order, are the
      results taos_query returned, each once, but for one still held; the statements closed are those
      opened, each once, but for one still open; a lent result is never freed. */
  lemma RunOwned(ops: seq<Op>)
    ensures var b := Run(ops);
      && Asked(ops) == Frees(b.log) + (if b.res.Some? && b.res.value.owner.Driver? then [b.res.value.id] else [])
      && Opened(ops) == Closes(b.log) + (if b.stmt.Some? then [b.stmt.value] else [])
      && Distinct(Asked(ops), Lent2(ops), Opened(ops), b.ids)
  {
    RunLawful(ops);
    RunHandsOut(ops);
    Owned(Run(ops).log);
    HandlesDiffer(Run(ops).log);
  }

  /** After the final release nothing is held or open: exactly what was handed out has been given
      back, once each. */
  lemma ReleasedOnce(ops: seq<Op>)
    ensures var b := Close(Run(ops));
      && Frees(b.log) == Asked(ops) && Closes(b.log) == Opened(ops) && Loans(b.log) == Lent2(ops)
      && Increasing(Frees(b.log)) && Increasing(Closes(b.log)) && Apart(Frees(b.log), Loans(b.log))
  {
    hide Run, Asked, Lent2, Opened, Queries, Loans, Inits, Frees, Closes, Increasing, Apart, Below;
    RunThenReset(ops);
    RunOwned(ops + [ResetOp]);
    RunHandsOut(ops + [ResetOp]);
    var log := Close(Run(ops)).log;
    assert Frees(log) + [] == Frees(log) && Closes(log) + [] == Closes(log);
  }

  lemma RunThenReset(ops: seq<Op>)
    ensures Run(ops + [ResetOp]) == Close(Run(ops))
    ensures Asked(ops + [ResetOp]) == Asked(ops) && Lent2(ops + [ResetOp]) == Lent2(ops)
    ensures Opened(ops + [ResetOp]) == Opened(ops)
  {
    assert (ops + [ResetOp])[..|ops|] == ops;
  }

  /** The C functions over any sequence of operations and a final release compute that run. */
  method Life(ops: seq<Op>) returns (s: Statement)
    ensures fresh(s) && s.Valid() && s.Now() == Close(Run(ops))
  {
    s := new Statement();
    for i := 0 to |ops|
      invariant fresh(s) && s.Valid() && s.Now() == Run(ops[..i])
    {
      assert ops[..i + 1][..i] == ops[..i];
      match ops[i]
      case PrepareOp(placeholders, a) => var _ := s.Prepare(placeholders, a);
      case ExecuteOp(x) =>
        if s.sql || s.qms > 0 { var _ := s.Execute(x); }
      case CloseCursorOp => s.ResetRes();
      case ResetOp => s.Reset();
      case UnprepareOp => s.Unprepare();
    }
    assert ops[..|ops|] == ops;
    s.Reset();
  }

  // ---------------------------------------------------------------- the operations, spelled out

  /** What an execute asks of taosc, and what the driver holds afterwards: first the old result goes;
      nothing is asked unless both descriptors agree and bind enough parameters, none when there are no
      placeholders. */
  lemma ExecuteMeaning(b: Book, x: Execution)
    ensures var t := ExecuteBook(b, x);
      var dropped :=
        if b.res.None? then []
        else if b.res.value.owner == Driver then [Freed(b.res.value.id)]
        else [Dropped(b.res.value.id)];
      var bound := x.apd == x.ipd && x.apd >= Wrap16(b.nrParams);
      && t.stmt == b.stmt && t.sql == b.sql && t.qms == b.qms && t.nrParams == b.nrParams
      && (bound && b.qms == 0 && x.apd <= 0 && x.result ==>
            && t.log == b.log + dropped + [Queried(b.ids)]
            && t.res == Some(Held(b.ids, Driver)) && t.ids == b.ids + 1)
      && (bound && b.qms > 0 && b.stmt.Some? && x.execOk && x.result ==>
            && t.log == b.log + dropped + [Executed(b.stmt.value), Lent(b.stmt.value, b.ids)]
            && t.res == Some(Held(b.ids, Stmt2(b.stmt.value))) && t.ids == b.ids + 1)
      && (bound && b.qms > 0 && b.stmt.Some? && !(x.execOk && x.result) ==>
            t.log == b.log + dropped + [Executed(b.stmt.value)] && t.res == None && t.ids == b.ids)
      && (!bound || (b.qms == 0 && !(x.apd <= 0 && x.result)) || (b.qms > 0 && b.stmt.None?) ==>
            t.log == b.log + dropped && t.res == None && t.ids == b.ids)
  {
    assert b.log + DropCalls(b.res) + [] == b.log + DropCalls(b.res);
  }

  /** What a prepare asks of taosc after what was there has gone, and what is open afterwards. */
  lemma PrepareMeaning(b: Book, placeholders: nat, a: Preparation)
    ensures var t := PrepareBook(b, placeholders, a);
      var was := Close(b).log;
      var borrowed := if a.fields.Some? then [GotFields(b.ids), FreedFields(b.ids)] else [];
      && t.sql && t.res == None && t.qms == placeholders
      && (placeholders == 0 || !a.initOk ==> t.log == was && t.stmt == None && t.ids == b.ids)
      && (placeholders > 0 && a.initOk ==> t.ids == b.ids + 1)
      && (placeholders > 0 && a.initOk && (!a.prepareOk || !a.kindOk || (!a.insert && !a.fieldsOk)) ==>
            t.log == was + [Inited(b.ids), Closed(b.ids)] && t.stmt == None)
      && (placeholders > 0 && a.initOk && a.prepareOk && a.kindOk && a.insert && !a.fieldsOk ==>
            t.log == was + [Inited(b.ids)] && t.stmt == Some(b.ids))
      && (placeholders > 0 && a.initOk && a.prepareOk && a.kindOk && a.fieldsOk ==>
            t.log == was + ([Inited(b.ids)] + borrowed) && t.stmt == Some(b.ids))
  {
    hide CloseCalls, ParamsKnown;
    assert [Inited(b.ids)] + [] == [Inited(b.ids)];
  }

  /** How many parameters are known afterwards: the 16-bit count of an insert's table name, tags and
      columns, or the count reported for another statement when it equals the placeholders. */
  lemma KnownMeaning(b: Book, placeholders: nat, a: Preparation)
    requires placeholders > 0
    ensures var fields := if a.fields.Some? then a.fields.value else [];
      var known := a.initOk && a.prepareOk && a.kindOk && a.fieldsOk;
      var named := if exists j :: 0 <= j < |fields| && fields[j].kind == TbName then 1 else 0;
      PrepareBook(b, placeholders, a).nrParams ==
      if known && a.insert then Wrap16(named + |OfKind(fields, Tag)| + |OfKind(fields, Col)|)
      else if known && a.count == placeholders then a.count
      else 0
  {
    hide Wrap16, OfKind;
  }

  /** What closing asks of taosc. */
  lemma CloseMeaning(b: Book)
    ensures var t := Close(b);
      && t.res == None && t.stmt == None
      && t.sql == b.sql && t.qms == b.qms && t.nrParams == b.nrParams && t.ids == b.ids
      && t.log == b.log
           + (if b.res.None? then []
              else if b.res.value.owner == Driver then [Freed(b.res.value.id)]
              else [Dropped(b.res.value.id)])
           + (if b.stmt.Some? then [Closed(b.stmt.value)] else [])
  {
  }

  /** When preparing succeeds, and the field of parameter i of a statement that is no insert. */
  lemma PreparesMeaning(a: Preparation, placeholders: nat)
    ensures Prepares(a, placeholders) <==>
      && a.initOk && a.prepareOk && a.kindOk && a.fieldsOk && 0 < placeholders
      && placeholders == Wrap16(|ParamsOf(a)|) && (a.insert || placeholders == a.count)
    ensures !a.insert ==> |ParamsOf(a)| == a.count
  {
  }

  lemma OtherPositions(a: Preparation, i: nat)
    requires !a.insert && i < a.count
    ensures ParamsOf(a)[i] ==
      if a.fields.Some? && i < |a.fields.value| && a.fields.value[i].desc.typ != 0 then a.fields.value[i].desc
      else Desc("", 8, 0, 0, 16384)
  {
  }

  lemma OfKindOne(f: Field, kind: Kind)
    ensures OfKind([f], kind) == if f.kind == kind then [f.desc] else []
  {
    assert [f][..0] == [];
  }

  /** The fields of one kind are those of the parts, in order. */
  lemma {:induction false} OfKindParts(a: seq<Field>, b: seq<Field>, kind: Kind)
    ensures OfKind(a + b, kind) == OfKind(a, kind) + OfKind(b, kind)
    decreases |b|
  {
    if b == [] {
      assert a + b == a;
    } else {
      assert (a + b)[..|a + b| - 1] == a + b[..|b| - 1];
      OfKindParts(a, b[..|b| - 1], kind);
    }
  }
}
