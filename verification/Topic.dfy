/** The topic consumer: poll, describe, fetch, commit and close.

    What the outside world will do is a feed of ticks, one per round of the polling loop: whether
    the time limit has passed, and what tmq_consumer_poll hands over.  A call that uses up the
    feed is still polling: it has the outcome Waiting, and nothing else happens in that run.
    The log lists the calls made on the consumer, in order. */
module Topic {
  datatype Option<T> = None | Some(value: T)

  type Row = string

  /** A polled message.  name is "" when tmq_get_topic_name fails; described says whether the rest
      of the description succeeds (database name, fields, no clash with a pseudo column); commits
      says whether tmq_commit_sync accepts it. */
  datatype Message = Message(name: string, described: bool, rows: seq<Row>, commits: bool)

  datatype Tick = Tick(timeUp: bool, got: Option<Message>)

  /** A result in the driver's hands: the id-th one ever polled, next being the next row to read. */
  datatype Result = Result(id: nat, message: Message, next: nat)

  datatype Call =
    | Subscribed(limit: int)
    | Polled(id: nat, message: Message)
    | Delivered(id: nat, row: Row)
    | Committed(id: nat, ok: bool)
    | Freed(id: nat)
    | Unsubscribed
    | Opened
    | Closed

  datatype Outcome = Success | NoData | Error | Waiting

  /** The fields of topic_t, what is left of the feed, the number of messages polled, the log. */
  datatype State = State(open: bool, subscribed: bool, res: Option<Result>, row: Option<Row>, doNotCommit: bool,
                         max: int, count: nat, name: Option<string>, feed: seq<Tick>, serial: nat, log: seq<Call>)

  function Initial(feed: seq<Tick>): State {
    State(false, false, None, None, false, -1, 0, None, feed, 0, [])
  }

  // ---------------------------------------------------------------- the operations

  predicate Broken(m: Message) {
    m.name == "" || !m.described
  }

  /** _topic_desc_tripple on the result just polled. */
  function Describe(name: Option<string>, m: Message): Outcome {
    if Broken(m) then Error
    else if name.Some? && name.value != m.name then NoData
    else Success
  }

  /** The cached topic name after describing: a missing name leaves it, a later failure does not. */
  function NameAfter(name: Option<string>, m: Message): Option<string> {
    if m.name == "" then name else Some(m.name)
  }

  predicate LimitReached(s: State) {
    s.max >= 0 && s.count >= s.max
  }

  /** A message arrives while none is held. */
  function Receive(s: State, m: Message): State {
    s.(res := Some(Result(s.serial, m, 0)), serial := s.serial + 1, name := NameAfter(s.name, m),
       doNotCommit := s.doNotCommit || Broken(m), log := s.log + [Polled(s.serial, m)])
  }

  /** _poll. */
  function Poll(s: State): (r: (State, Outcome))
    ensures r.1 == Success ==> r.0.res.Some? && (r.0 == s || |r.0.feed| < |s.feed|)
    decreases |s.feed|
  {
    if s.res.Some? then (s, Success)
    else if LimitReached(s) then (s, NoData)
    else if s.feed == [] then (s, Waiting)
    else
      var t := s.feed[0];
      var s1 := s.(feed := s.feed[1..]);
      if t.timeUp then (s1, NoData)
      else if t.got.None? then Poll(s1)
      else
        var s2 := Receive(s1, t.got.value);
        var o := Describe(s.name, t.got.value);
        if o == Success then (s2, Success) else (s2, o)
  }

  /** _topic_reset_res: commit unless a failure forbids it, then free in any case. */
  function ResetRes(s: State): (r: (State, Outcome))
    ensures r.0.res.None? && r.0.feed == s.feed
  {
    if s.res.None? then (s, Success)
    else
      var id := s.res.value.id;
      var ok := s.res.value.message.commits;
      if s.doNotCommit then (s.(res := None, log := s.log + [Freed(id)]), Success)
      else
        (s.(res := None, doNotCommit := !ok, log := s.log + [Committed(id, ok), Freed(id)]),
         if ok then Success else Error)
  }

  /** One more row of the held result. */
  function Deliver(s: State): State
    requires s.res.Some? && s.res.value.next < |s.res.value.message.rows|
  {
    var r := s.res.value;
    var row := r.message.rows[r.next];
    s.(res := Some(r.(next := r.next + 1)), row := Some(row), count := s.count + 1,
       log := s.log + [Delivered(r.id, row)])
  }

  /** _fetch_row. */
  function FetchRow(s: State): (State, Outcome)
    decreases |s.feed|, if s.res.Some? then 1 else 0
  {
    var (s1, o) := Poll(s);
    if o != Success then (s1, o)
    else
      var r := s1.res.value;
      if r.next < |r.message.rows| then
        (Deliver(s1), Success)
      else
        var (s2, o2) := ResetRes(s1);
        if o2 != Success then (s2, Error) else FetchRow(s2)
  }

  /** _topic_reset_tmq. */
  function CloseConsumer(s: State): State {
    if !s.open then s
    else s.(open := false, subscribed := false, log := s.log + (if s.subscribed then [Unsubscribed] else []) + [Closed])
  }

  /** topic_reset. */
  function Reset(s: State): State {
    CloseConsumer(ResetRes(s.(row := None)).0)
  }

  /** One key of the topic's settings: the two limits the driver reads itself, a key without a value,
      and any other, which tmq_conf_set takes or not. */
  datatype Setting = Limit(n: int) | Seconds(n: int) | NoValue | Other(taken: bool)

  /** What topic_open is given and what it meets: named says whether there is a topic, conf whether a
      configuration was made, address whether it took the server's address, built whether a consumer
      was made, joined whether the subscription succeeded. */
  datatype Opening = Opening(named: bool, conf: bool, address: bool, settings: seq<Setting>, built: bool, joined: bool)

  /** The loop over the settings: the record limit so far, and whether all were taken. */
  function Configure(max: int, settings: seq<Setting>): (int, bool)
    decreases |settings|
  {
    if settings == [] then (max, true)
    else
      match settings[0]
      case Limit(n) => Configure(n, settings[1..])
      case Other(taken) => if taken then Configure(max, settings[1..]) else (max, false)
      case _ => Configure(max, settings[1..])
  }

  /** topic_open. */
  function Open(s: State, a: Opening): (State, Outcome) {
    if !a.named || !a.conf then (s, Error)
    else if !a.address then (s.(max := -1), Error)
    else
      var (limit, taken) := Configure(-1, a.settings);
      if !taken || !a.built then (s.(max := limit), Error)
      else
        var s1 := s.(max := limit, open := true, log := s.log + [Opened]);
        if !a.joined then (Reset(s1), Error)
        else (s1.(subscribed := true, count := 0, log := s1.log + [Subscribed(limit)]), Success)
  }

  /** What an application can ask for. */
  datatype Op = OpenOp(a: Opening) | ExecuteOp | FetchOp | MoreOp | ResetOp

  /** topic_open asserts that no consumer is open; the others are reached through an open topic. */
  predicate Enabled(s: State, op: Op) {
    match op
    case OpenOp(_) => !s.open && !s.subscribed
    case ResetOp => true
    case _ => s.subscribed
  }

  function Apply(s: State, op: Op): (State, Outcome) {
    match op
    case OpenOp(a) => Open(s, a)
    case ExecuteOp => Poll(s)
    case FetchOp => FetchRow(s)
    case MoreOp => (s, if s.res.Some? then Success else NoData)
    case ResetOp => (Reset(s), Success)
  }

  /** The state after ops on a fresh topic; None when one of them was not enabled. */
  function Run(feed: seq<Tick>, ops: seq<Op>): Option<State>
    decreases |ops|
  {
    if ops == [] then Some(Initial(feed))
    else
      var last := ops[|ops| - 1];
      var before := Run(feed, ops[..|ops| - 1]);
      if before.Some? && Enabled(before.value, last) then Some(Apply(before.value, last).0) else None
  }

  // ---------------------------------------------------------------- what a log may say

  /** What a log of calls amounts to, read without knowing the driver.  freed and committed count
      messages; failed says that a description or a commit has failed; since counts the rows
      delivered since the latest subscription, latest is the size of the latest message polled
      since then. */
  datatype Phase = Phase(open: bool, subscribed: bool, res: Option<Result>, polled: nat, freed: nat, committed: nat,
                         failed: bool, limit: int, since: nat, latest: Option<nat>)

  const FRESH := Phase(false, false, None, 0, 0, 0, false, -1, 0, None)

  /** The consumer's rules: poll only when subscribed, holding nothing, and below the limit;
      deliver the held message's rows in order; commit only the held message, each message once, in
      the order polled, before any failure, and (when whole is asked for) after its last row; free
      it once, uncommitted only after a failure; unsubscribe and close only when nothing is held. */
  function Next(p: Phase, c: Call, whole: bool): Option<Phase> {
    match c
    case Opened =>
      if p.open || p.subscribed || p.res.Some? then None else Some(p.(open := true))
    case Subscribed(limit) =>
      if !p.open || p.subscribed || p.res.Some? then None
      else Some(p.(subscribed := true, limit := limit, since := 0, latest := None))
    case Polled(id, m) =>
      if !p.subscribed || p.res.Some? || id != p.polled || (0 <= p.limit <= p.since) then None
      else
        Some(p.(res := Some(Result(id, m, 0)), polled := p.polled + 1, failed := p.failed || Broken(m),
                latest := Some(|m.rows|)))
    case Delivered(id, row) =>
      if p.res.None? || id != p.res.value.id || p.res.value.next >= |p.res.value.message.rows| then None
      else if row != p.res.value.message.rows[p.res.value.next] then None
      else Some(p.(res := Some(p.res.value.(next := p.res.value.next + 1)), since := p.since + 1))
    case Committed(id, ok) =>
      if p.res.None? || !p.subscribed || id != p.res.value.id || id != p.committed || p.failed then None
      else if whole && p.res.value.next != |p.res.value.message.rows| then None
      else Some(p.(committed := if ok then p.committed + 1 else p.committed, failed := !ok))
    case Freed(id) =>
      if p.res.None? || id != p.res.value.id || id != p.freed || (p.committed != id + 1 && !p.failed) then None
      else if whole && p.res.value.next != |p.res.value.message.rows| then None
      else Some(p.(res := None, freed := p.freed + 1))
    case Unsubscribed =>
      if !p.subscribed || p.res.Some? then None else Some(p.(subscribed := false))
    case Closed =>
      if !p.open || p.subscribed || p.res.Some? then None else Some(p.(open := false))
  }

  function Follow(log: seq<Call>, whole: bool): Option<Phase>
    decreases |log|
  {
    if log == [] then Some(FRESH)
    else
      var before := Follow(log[..|log| - 1], whole);
      if before.None? then None else Next(before.value, log[|log| - 1], whole)
  }

  lemma FollowStep(log: seq<Call>, c: Call, whole: bool)
    ensures Follow(log + [c], whole) == if Follow(log, whole).None? then None
      else Next(Follow(log, whole).value, c, whole)
  {
    assert (log + [c])[..|log|] == log;
  }

  // ---------------------------------------------------------------- every run obeys the rules

  /** The log is lawful and the fields say what it says. */
  ghost predicate Agrees(s: State, whole: bool) {
    Follow(s.log, whole).Some? && Matches(s, Follow(s.log, whole).value)
  }

  predicate Matches(s: State, p: Phase) {
    && p.open == s.open && p.subscribed == s.subscribed && p.res == s.res
    && p.polled == s.serial && p.failed == s.doNotCommit
    && (s.subscribed ==> s.open && p.limit == s.max && p.since == s.count)
    && (s.res.Some? ==> s.subscribed && s.res.value.id + 1 == s.serial)
    && (s.res.Some? ==> s.res.value.next <= |s.res.value.message.rows|)
    && p.freed + (if s.res.Some? then 1 else 0) == s.serial
    && p.committed <= p.freed && (!p.failed ==> p.committed == p.freed)
    && (s.subscribed ==> RoomKept(p))
  }

  /** Below a limit: the rows delivered and those still held stay below limit + latest message. */
  predicate RoomKept(p: Phase) {
    var held := if p.res.Some? then |p.res.value.message.rows| - p.res.value.next else 0;
    && (p.latest.None? ==> p.since == 0 && p.res.None?)
    && (p.limit >= 0 && p.latest.Some? ==> p.since + held < p.limit + p.latest.value)
  }

  lemma ReceiveAgrees(s: State, m: Message, whole: bool)
    requires Agrees(s, whole) && s.subscribed && s.res.None? && !LimitReached(s)
    ensures Agrees(Receive(s, m), whole)
  {
    FollowStep(s.log, Polled(s.serial, m), whole);
  }

  lemma {:induction false} PollAgrees(s: State, whole: bool)
    requires Agrees(s, whole) && s.subscribed
    ensures Agrees(Poll(s).0, whole) && Poll(s).0.subscribed
    decreases |s.feed|
  {
    if s.res.None? && !LimitReached(s) && s.feed != [] && !s.feed[0].timeUp {
      var s1 := s.(feed := s.feed[1..]);
      assert Agrees(s1, whole);
      if s.feed[0].got.None? {
        PollAgrees(s1, whole);
      } else {
        ReceiveAgrees(s1, s.feed[0].got.value, whole);
      }
    }
  }

  /** whole runs reset a result only after its last row. */
  lemma ResetResAgrees(s: State, whole: bool)
    requires Agrees(s, whole)
    requires whole && s.res.Some? ==> s.res.value.next == |s.res.value.message.rows|
    ensures Agrees(ResetRes(s).0, whole) && ResetRes(s).0.subscribed == s.subscribed && ResetRes(s).0.open == s.open
  {
    if s.res.Some? {
      var id := s.res.value.id;
      var ok := s.res.value.message.commits;
      if s.doNotCommit {
        FollowStep(s.log, Freed(id), whole);
      } else {
        FollowStep(s.log, Committed(id, ok), whole);
        assert s.log + [Committed(id, ok), Freed(id)] == s.log + [Committed(id, ok)] + [Freed(id)];
        FollowStep(s.log + [Committed(id, ok)], Freed(id), whole);
      }
    }
  }

  lemma DeliverAgrees(s: State, whole: bool)
    requires Agrees(s, whole) && s.subscribed && s.res.Some? && s.res.value.next < |s.res.value.message.rows|
    ensures Agrees(Deliver(s), whole)
  {
    FollowStep(s.log, Delivered(s.res.value.id, s.res.value.message.rows[s.res.value.next]), whole);
  }

  lemma {:induction false} FetchAgrees(s: State, whole: bool)
    requires Agrees(s, whole) && s.subscribed
    ensures Agrees(FetchRow(s).0, whole) && FetchRow(s).0.subscribed
    decreases |s.feed|, if s.res.Some? then 1 else 0
  {
    PollAgrees(s, whole);
    var (s1, o) := Poll(s);
    if o == Success {
      var r := s1.res.value;
      if r.next < |r.message.rows| {
        DeliverAgrees(s1, whole);
      } else {
        assert r.next == |r.message.rows|;
        hide Agrees;
        ResetResAgrees(s1, whole);
        if ResetRes(s1).1 == Success {
          FetchAgrees(ResetRes(s1).0, whole);
        }
      }
    }
  }

  lemma CloseAgrees(s: State, whole: bool)
    requires Agrees(s, whole) && s.res.None? && (s.subscribed ==> s.open)
    ensures Agrees(CloseConsumer(s), whole)
  {
    if s.open {
      if s.subscribed {
        FollowStep(s.log, Unsubscribed, whole);
        FollowStep(s.log + [Unsubscribed], Closed, whole);
      } else {
        FollowStep(s.log, Closed, whole);
        assert s.log + [] == s.log;
      }
    }
  }

  lemma ResetAgrees(s: State)
    requires Agrees(s, false)
    ensures Agrees(Reset(s), false)
  {
    ResetResAgrees(s.(row := None), false);
    CloseAgrees(ResetRes(s.(row := None)).0, false);
  }

  lemma OpenAgrees(s: State, a: Opening, whole: bool)
    requires Agrees(s, whole) && !s.open && !s.subscribed
    ensures Agrees(Open(s, a).0, whole)
  {
    var (limit, taken) := Configure(-1, a.settings);
    if a.named && a.conf && a.address && taken && a.built {
      FollowStep(s.log, Opened, whole);
      var s1 := s.(max := limit, open := true, log := s.log + [Opened]);
      assert Agrees(s1, whole);
      if a.joined {
        FollowStep(s1.log, Subscribed(limit), whole);
      } else {
        CloseAgrees(s1.(row := None), whole);
      }
    }
  }

  /** Every run obeys the consumer's rules; one without a reset also obeys the strict ones. */
  lemma {:induction false} RunAgrees(feed: seq<Tick>, ops: seq<Op>, whole: bool)
    requires Run(feed, ops).Some? && (whole ==> ResetOp !in ops)
    ensures Agrees(Run(feed, ops).value, whole)
    decreases |ops|
  {
    if ops != [] {
      var before, last := ops[..|ops| - 1], ops[|ops| - 1];
      RunAgrees(feed, before, whole);
      var s := Run(feed, before).value;
      match last
      case OpenOp(a) => OpenAgrees(s, a, whole);
      case ExecuteOp => PollAgrees(s, whole);
      case FetchOp => FetchAgrees(s, whole);
      case MoreOp =>
      case ResetOp => ResetAgrees(s);
    }
  }

  // ---------------------------------------------------------------- what that means for a run

  function Upto(n: nat): seq<nat> {
    seq(n, i => i)
  }

  lemma UptoNext(n: nat)
    ensures Upto(n) + [n] == Upto(n + 1)
  {
  }

  /** The messages whose commit succeeded, in order; the commits tried; the results freed. */
  function CommitIn(c: Call): seq<nat> {
    if c.Committed? && c.ok then [c.id] else []
  }

  function Commits(log: seq<Call>): seq<nat> {
    if log == [] then [] else Commits(log[..|log| - 1]) + CommitIn(log[|log| - 1])
  }

  function AttemptIn(c: Call): seq<nat> {
    if c.Committed? then [c.id] else []
  }

  function Attempts(log: seq<Call>): seq<nat> {
    if log == [] then [] else Attempts(log[..|log| - 1]) + AttemptIn(log[|log| - 1])
  }

  function FreeIn(c: Call): seq<nat> {
    if c.Freed? then [c.id] else []
  }

  function Frees(log: seq<Call>): seq<nat> {
    if log == [] then [] else Frees(log[..|log| - 1]) + FreeIn(log[|log| - 1])
  }

  function MessageIn(c: Call): seq<Message> {
    if c.Polled? then [c.message] else []
  }

  function Messages(log: seq<Call>): seq<Message> {
    if log == [] then []
    else Messages(log[..|log| - 1]) + MessageIn(log[|log| - 1])
  }

  function RowIn(c: Call): seq<Row> {
    if c.Delivered? then [c.row] else []
  }

  function Rows(log: seq<Call>): seq<Row> {
    if log == [] then []
    else Rows(log[..|log| - 1]) + RowIn(log[|log| - 1])
  }

  function RowsOf(ms: seq<Message>): seq<Row> {
    if ms == [] then [] else RowsOf(ms[..|ms| - 1]) + ms[|ms| - 1].rows
  }

  predicate Failure(c: Call) {
    match c
    case Polled(_, m) => Broken(m)
    case Committed(_, ok) => !ok
    case _ => false
  }

  predicate Failed(log: seq<Call>) {
    exists i :: 0 <= i < |log| && Failure(log[i])
  }

  lemma FailedStep(log: seq<Call>)
    requires log != []
    ensures Failed(log) <==> Failed(log[..|log| - 1]) || Failure(log[|log| - 1])
  {
    var front := log[..|log| - 1];
    if Failed(front) {
      var i :| 0 <= i < |front| && Failure(front[i]);
      assert Failure(log[i]);
    }
    if Failed(log) && !Failure(log[|log| - 1]) {
      var i :| 0 <= i < |log| && Failure(log[i]);
      assert front[i] == log[i];
    }
  }

  /** A phase's counters against the lists they count. */
  predicate Lists(p: Phase, commits: seq<nat>, attempts: seq<nat>, frees: seq<nat>) {
    && commits == Upto(p.committed) && frees == Upto(p.freed)
    && (attempts == Upto(p.committed) || (p.failed && attempts == Upto(p.committed + 1)))
    && (!p.failed ==> attempts == commits)
  }

  lemma ListsStep(p: Phase, c: Call, whole: bool, commits: seq<nat>, attempts: seq<nat>, frees: seq<nat>)
    requires Next(p, c, whole).Some? && Lists(p, commits, attempts, frees)
    ensures Lists(Next(p, c, whole).value, commits + CommitIn(c), attempts + AttemptIn(c), frees + FreeIn(c))
  {
    UptoNext(p.committed);
    UptoNext(p.freed);
    hide Upto;
    assert commits + [] == commits && attempts + [] == attempts && frees + [] == frees;
  }

  /** The counters of a phase are exactly what the log lists. */
  lemma {:induction false} Counted(log: seq<Call>, whole: bool)
    requires Follow(log, whole).Some?
    ensures Lists(Follow(log, whole).value, Commits(log), Attempts(log), Frees(log))
    decreases |log|
  {
    if log != [] {
      Counted(log[..|log| - 1], whole);
      ListsStep(Follow(log[..|log| - 1], whole).value, log[|log| - 1], whole, Commits(log[..|log| - 1]),
        Attempts(log[..|log| - 1]), Frees(log[..|log| - 1]));
    }
  }

  lemma FailedFollows(p: Phase, c: Call, whole: bool)
    requires Next(p, c, whole).Some?
    ensures Next(p, c, whole).value.failed <==> p.failed || Failure(c)
    ensures Next(p, c, whole).value.polled == p.polled + |MessageIn(c)|
  {
  }

  lemma {:induction false} CountedFailures(log: seq<Call>, whole: bool)
    requires Follow(log, whole).Some?
    ensures Follow(log, whole).value.failed <==> Failed(log)
    ensures Follow(log, whole).value.polled == |Messages(log)|
    decreases |log|
  {
    if log != [] {
      var front := log[..|log| - 1];
      CountedFailures(front, whole);
      FailedStep(log);
      hide Failed, Next, Failure;
      FailedFollows(Follow(front, whole).value, log[|log| - 1], whole);
    }
  }

  lemma {:induction false} PrefixLawful(log: seq<Call>, j: nat, whole: bool)
    requires Follow(log, whole).Some? && j <= |log|
    ensures Follow(log[..j], whole).Some?
    decreases |log|
  {
    if j == |log| {
      assert log[..j] == log;
    } else {
      PrefixLawful(log[..|log| - 1], j, whole);
      assert log[..|log| - 1][..j] == log[..j];
    }
  }

  /** Every call of a lawful log was allowed when it was made. */
  lemma AllowedAt(log: seq<Call>, j: nat, whole: bool)
    requires Follow(log, whole).Some? && j < |log|
    ensures Follow(log[..j], whole).Some? && Next(Follow(log[..j], whole).value, log[j], whole).Some?
  {
    PrefixLawful(log, j, whole);
    PrefixLawful(log, j + 1, whole);
    assert log[..j + 1][..j] == log[..j];
  }

  /** In every run, whatever fails and however often the topic is reset and reopened: the commits
      that succeeded are those of messages 0, 1, 2, ... without a gap, each once; no commit is
      tried twice; every result polled is freed once, in order, except the one still held; and
      without a failure every freed result was committed. */
  lemma CommittedPrefix(feed: seq<Tick>, ops: seq<Op>)
    requires Run(feed, ops).Some?
    ensures var s := Run(feed, ops).value;
      var c, f, n := |Commits(s.log)|, |Frees(s.log)|, |Messages(s.log)|;
      && Commits(s.log) == Upto(c) && Frees(s.log) == Upto(f)
      && c <= f && n == f + (if s.res.Some? then 1 else 0)
      && (Attempts(s.log) == Upto(c) || (Failed(s.log) && Attempts(s.log) == Upto(c + 1)))
      && (!Failed(s.log) ==> c == f)
      && (s.res.Some? ==> s.res.value.id == f && s.subscribed)
  {
    RunAgrees(feed, ops, false);
    Counted(Run(feed, ops).value.log, false);
    CountedFailures(Run(feed, ops).value.log, false);
  }

  predicate Touches(c: Call, id: nat) {
    match c
    case Delivered(d, _) => d == id
    case Committed(d, _) => d == id
    case Freed(d) => d == id
    case _ => false
  }

  predicate Ends(c: Call) {
    c.Freed? || c.Polled? || c.Unsubscribed? || c.Closed?
  }

  ghost predicate HeldFrom(log: seq<Call>, k: nat, id: nat) {
    && k < |log| && log[k].Polled? && log[k].id == id
    && forall i :: k < i < |log| ==> !Ends(log[i])
  }

  lemma {:induction false} HeldSince(log: seq<Call>, whole: bool) returns (k: nat)
    requires Follow(log, whole).Some? && Follow(log, whole).value.res.Some?
    ensures HeldFrom(log, k, Follow(log, whole).value.res.value.id)
    decreases |log|
  {
    if log[|log| - 1].Polled? {
      k := |log| - 1;
    } else {
      k := HeldSince(log[..|log| - 1], whole);
      var front := log[..|log| - 1];
      forall i | k < i < |log| ensures !Ends(log[i]) {
        if i < |front| {
          assert log[i] == front[i];
        }
      }
    }
  }

  /** Reading a row of a result, committing it or freeing it happens only after it was polled,
      and since then nothing was freed, polled over it, unsubscribed or closed. */
  lemma UsedOnlyWhileHeld(feed: seq<Tick>, ops: seq<Op>, j: nat, id: nat) returns (k: nat)
    requires Run(feed, ops).Some? && j < |Run(feed, ops).value.log| && Touches(Run(feed, ops).value.log[j], id)
    ensures k < j && HeldFrom(Run(feed, ops).value.log[..j], k, id)
  {
    var log := Run(feed, ops).value.log;
    RunAgrees(feed, ops, false);
    AllowedAt(log, j, false);
    k := HeldSince(log[..j], false);
  }

  /** A failed description or commit is for ever: nothing is committed after it, not even through a
      later subscription of the same statement. */
  lemma FailureIsForever(feed: seq<Tick>, ops: seq<Op>, i: nat, j: nat)
    requires Run(feed, ops).Some? && i < j < |Run(feed, ops).value.log| && Failure(Run(feed, ops).value.log[i])
    ensures !Run(feed, ops).value.log[j].Committed?
  {
    var log := Run(feed, ops).value.log;
    RunAgrees(feed, ops, false);
    AllowedAt(log, j, false);
    CountedFailures(log[..j], false);
    assert log[..j][i] == log[i];
    assert Failed(log[..j]);
  }

  // ---------------------------------------------------------------- rows

  /** The rows of the held message not delivered yet. */
  function Pending(res: Option<Result>): seq<Row>
    requires res.Some? ==> res.value.next <= |res.value.message.rows|
  {
    if res.None? then [] else res.value.message.rows[res.value.next..]
  }

  lemma {:induction false} RowsFollow(log: seq<Call>)
    requires Follow(log, true).Some?
    ensures var p := Follow(log, true).value;
      && (p.res.Some? ==> p.res.value.next <= |p.res.value.message.rows|)
      && Rows(log) + Pending(p.res) == RowsOf(Messages(log))
    decreases |log|
  {
    if log != [] {
      var front := log[..|log| - 1];
      RowsFollow(front);
      RowsStep(Follow(front, true).value, log[|log| - 1], Rows(front), Messages(front));
    }
  }

  lemma RowsStep(p: Phase, c: Call, rows: seq<Row>, ms: seq<Message>)
    requires Next(p, c, true).Some?
    requires p.res.Some? ==> p.res.value.next <= |p.res.value.message.rows|
    requires rows + Pending(p.res) == RowsOf(ms)
    ensures var q := Next(p, c, true).value;
      && (q.res.Some? ==> q.res.value.next <= |q.res.value.message.rows|)
      && rows + RowIn(c) + Pending(q.res) == RowsOf(ms + MessageIn(c))
  {
    if c.Polled? {
      assert (ms + [c.message])[..|ms|] == ms;
    } else {
      assert ms + [] == ms && rows + [] == rows;
      if c.Delivered? {
        assert [c.row] + p.res.value.message.rows[p.res.value.next + 1..] == Pending(p.res);
      }
    }
  }

  /** Without a reset, the rows fetched are the rows of the polled messages, in order, none lost
      and none repeated, up to those of the held message still to come. */
  lemma RowsInOrder(feed: seq<Tick>, ops: seq<Op>)
    requires Run(feed, ops).Some? && ResetOp !in ops
    ensures var s := Run(feed, ops).value;
      && (s.res.Some? ==> s.res.value.next <= |s.res.value.message.rows|)
      && Rows(s.log) + Pending(s.res) == RowsOf(Messages(s.log))
  {
    RunAgrees(feed, ops, true);
    RowsFollow(Run(feed, ops).value.log);
  }

  lemma WholeWhenDone(p: Phase, c: Call)
    requires Next(p, c, true).Some? && (c.Committed? || c.Freed?)
    ensures p.res.Some? && Pending(p.res) == []
  {
  }

  /** Without a reset, when a message is committed or freed, every row polled so far, its own last
      row included, has been delivered. */
  lemma CommitAfterLastRow(feed: seq<Tick>, ops: seq<Op>, j: nat)
    requires Run(feed, ops).Some? && ResetOp !in ops && j < |Run(feed, ops).value.log|
    requires Run(feed, ops).value.log[j].Committed? || Run(feed, ops).value.log[j].Freed?
    ensures var before := Run(feed, ops).value.log[..j];
      Rows(before) == RowsOf(Messages(before))
  {
    var log := Run(feed, ops).value.log;
    RunAgrees(feed, ops, true);
    AllowedAt(log, j, true);
    hide Next, Run, Follow;
    WholeWhenDone(Follow(log[..j], true).value, log[j]);
    RowsFollow(log[..j]);
  }

  /** The part of the log after the latest subscription. */
  function SinceOpen(log: seq<Call>): seq<Call> {
    if log == [] then []
    else if log[|log| - 1].Subscribed? then []
    else SinceOpen(log[..|log| - 1]) + [log[|log| - 1]]
  }

  function LatestSize(ms: seq<Message>): Option<nat> {
    if ms == [] then None else Some(|ms[|ms| - 1].rows|)
  }

  lemma EmptyLog()
    ensures Rows([]) == [] && Messages([]) == [] && SinceOpen([]) == []
  {
  }

  lemma SubscribedStep(p: Phase, c: Call, whole: bool)
    requires Next(p, c, whole).Some? && Next(p, c, whole).value.subscribed
    ensures !c.Subscribed? ==> p.subscribed
    ensures c.Subscribed? ==> Next(p, c, whole).value.since == 0 && Next(p, c, whole).value.latest == LatestSize([])
  {
  }

  lemma CountStep(p: Phase, c: Call, whole: bool, rows: seq<Row>, ms: seq<Message>)
    requires Next(p, c, whole).Some? && !c.Subscribed?
    requires p.since == |rows| && p.latest == LatestSize(ms)
    ensures Next(p, c, whole).value.since == |rows + RowIn(c)|
    ensures Next(p, c, whole).value.latest == LatestSize(ms + MessageIn(c))
  {
    assert ms + [] == ms;
  }

  lemma SinceOpenStep(log: seq<Call>, c: Call)
    ensures SinceOpen(log + [c]) == if c.Subscribed? then [] else SinceOpen(log) + [c]
    ensures Rows(log + [c]) == Rows(log) + RowIn(c)
    ensures Messages(log + [c]) == Messages(log) + MessageIn(c)
  {
    assert (log + [c])[..|log|] == log;
  }

  lemma {:induction false} CountFollows(log: seq<Call>, whole: bool)
    requires Follow(log, whole).Some? && Follow(log, whole).value.subscribed
    ensures Follow(log, whole).value.since == |Rows(SinceOpen(log))|
    ensures Follow(log, whole).value.latest == LatestSize(Messages(SinceOpen(log)))
    decreases |log|
  {
    if log != [] {
      hide Next, Rows, Messages, SinceOpen, LatestSize;
      var front, c := log[..|log| - 1], log[|log| - 1];
      var p := Follow(front, whole).value;
      SubscribedStep(p, c, whole);
      assert front + [c] == log;
      SinceOpenStep(front, c);
      assert Rows([]) == [] && Messages([]) == [] by {
        EmptyLog();
      }
      if !c.Subscribed? {
        CountFollows(front, whole);
        SinceOpenStep(SinceOpen(front), c);
        CountStep(p, c, whole, Rows(SinceOpen(front)), Messages(SinceOpen(front)));
      }
    }
  }

  /** With a record limit, the rows delivered since the subscription stay below the limit plus the
      size of the latest message; none is delivered before a first message. */
  lemma LimitKept(feed: seq<Tick>, ops: seq<Op>)
    requires Run(feed, ops).Some? && Run(feed, ops).value.subscribed
    ensures var s := Run(feed, ops).value;
      var ms := Messages(SinceOpen(s.log));
      && s.count == |Rows(SinceOpen(s.log))|
      && (ms == [] ==> s.count == 0)
      && (ms != [] && s.max >= 0 ==> s.count < s.max + |ms[|ms| - 1].rows|)
  {
    RunAgrees(feed, ops, false);
    CountFollows(Run(feed, ops).value.log, false);
  }

  // ---------------------------------------------------------------- what an outcome tells the caller

  predicate TimeRunsOut(feed: seq<Tick>) {
    exists i :: 0 <= i < |feed| && feed[i].timeUp
  }

  lemma {:induction false} PollSays(s: State)
    ensures var (t, o) := Poll(s);
      && (s.res.Some? ==> t == s && o == Success)
      && (s.res.None? && t.res.Some? ==>
            var m := t.res.value.message;
            && o == Describe(s.name, m) && t.name == NameAfter(s.name, m)
            && t.doNotCommit == (s.doNotCommit || Broken(m))
            && t.res.value.next == 0 && t.log == s.log + [Polled(s.serial, m)])
      && (t.res.None? ==>
            && t.log == s.log && t.name == s.name && t.doNotCommit == s.doNotCommit
            && (o == NoData || o == Waiting)
            && (o == NoData ==> LimitReached(s) || TimeRunsOut(s.feed))
            && (o == Waiting ==> t.feed == []))
      && t.count == s.count && t.row == s.row && t.max == s.max
    decreases |s.feed|
  {
    if s.res.None? && !LimitReached(s) && s.feed != [] && !s.feed[0].timeUp && s.feed[0].got.None? {
      var rest := s.feed[1..];
      PollSays(s.(feed := rest));
      if TimeRunsOut(rest) {
        var i :| 0 <= i < |rest| && rest[i].timeUp;
        assert s.feed[i + 1].timeUp;
      }
    }
  }

  /** The outcome of one poll, said about the states before and after.  A held result is kept as it is.
      A message that arrives is an error when its name or the rest of its description cannot be read,
      no data when it belongs to another topic than the one before, and success otherwise; its name is
      remembered whenever it can be read.  Without a message, no data comes from one of the limits. */
  lemma PollMeaning(s: State)
    ensures var (t, o) := Poll(s);
      && (s.res.Some? ==> t == s && o == Success)
      && (s.res.None? && t.res.Some? ==>
            var m := t.res.value.message;
            var failed := m.name == "" || !m.described;
            && (o == Error <==> failed)
            && (o == NoData <==> !failed && s.name.Some? && s.name.value != m.name)
            && (o == Success <==> !failed && (s.name.None? || s.name.value == m.name))
            && t.name == (if m.name == "" then s.name else Some(m.name))
            && t.doNotCommit == (s.doNotCommit || failed)
            && t.res.value.next == 0 && t.log == s.log + [Polled(s.serial, m)])
      && (t.res.None? ==>
            && t.log == s.log && t.name == s.name && t.doNotCommit == s.doNotCommit
            && (o == NoData || o == Waiting)
            && (o == NoData ==> 0 <= s.max <= s.count || exists i :: 0 <= i < |s.feed| && s.feed[i].timeUp)
            && (o == Waiting ==> t.feed == []))
      && t.count == s.count && t.row == s.row && t.max == s.max
  {
    hide Poll;
    PollSays(s);
  }

  /** With nothing held, the limit is looked at first; then the first tick that is not quiet decides. */
  lemma {:induction false} PollExactly(s: State, i: nat)
    requires s.res.None? && i <= |s.feed| && forall j :: 0 <= j < i ==> !s.feed[j].timeUp && s.feed[j].got.None?
    ensures 0 <= s.max <= s.count ==> Poll(s) == (s, NoData)
    ensures !(0 <= s.max <= s.count) && i == |s.feed| ==> Poll(s) == (s.(feed := []), Waiting)
    ensures !(0 <= s.max <= s.count) && i < |s.feed| && s.feed[i].timeUp ==>
      Poll(s) == (s.(feed := s.feed[i + 1..]), NoData)
    ensures !(0 <= s.max <= s.count) && i < |s.feed| && !s.feed[i].timeUp && s.feed[i].got.Some? ==>
      var m, t := s.feed[i].got.value, Poll(s).0;
      && t.res == Some(Result(s.serial, m, 0)) && t.serial == s.serial + 1 && t.feed == s.feed[i + 1..]
      && t.open == s.open && t.subscribed == s.subscribed
    decreases i
  {
    if i > 0 && !(0 <= s.max <= s.count) {
      var rest := s.feed[1..];
      assert forall j :: 0 <= j < i - 1 ==> rest[j] == s.feed[j + 1];
      PollExactly(s.(feed := rest), i - 1);
      if i < |s.feed| {
        assert rest[i - 1] == s.feed[i] && rest[i..] == s.feed[i + 1..];
      }
    }
  }

  /** What a fetch that started at count, row and feed tells by outcome o and state t: success is
      one more row, the one just delivered; an error means nothing will be committed any more;
      otherwise no row is lost or added. */
  predicate Tells(count: nat, row: Option<Row>, feed: seq<Tick>, t: State, o: Outcome) {
    && (o == Success ==> t.count == count + 1 && t.res.Some? && t.row.Some? && t.log != []
                         && t.log[|t.log| - 1] == Delivered(t.res.value.id, t.row.value))
    && (o != Success ==> t.count == count && t.row == row)
    && (o == Error ==> t.doNotCommit)
    && (o == Error && t.res.Some? ==>
          t.res.value.next == 0 && (t.res.value.message.name == "" || !t.res.value.message.described))
    && (o == Error && t.res.None? ==>
          |t.log| >= 2 && t.log[|t.log| - 1].Freed? && t.log[|t.log| - 2] == Committed(t.log[|t.log| - 1].id, false))
    && (o == NoData && t.res.Some? ==> t.res.value.next == 0 && t.name == Some(t.res.value.message.name))
    && (o == NoData && t.res.None? ==> 0 <= t.max <= t.count || TimeRunsOut(feed))
    && (o == Waiting ==> t.res.None? && t.feed == [])
  }

  /** The fetch ends with its poll. */
  lemma FetchStops(s: State)
    requires Poll(s).1 != Success
    ensures FetchRow(s) == Poll(s) && Tells(s.count, s.row, s.feed, Poll(s).0, Poll(s).1)
  {
    PollMeaning(s);
    PollSays(s);
    hide Poll, TimeRunsOut;
  }

  /** The held message has a row left. */
  lemma FetchDelivers(s: State)
    requires Poll(s).1 == Success && Poll(s).0.res.value.next < |Poll(s).0.res.value.message.rows|
    ensures FetchRow(s) == (Deliver(Poll(s).0), Success)
    ensures Tells(s.count, s.row, s.feed, Deliver(Poll(s).0), Success)
  {
    PollMeaning(s);
    hide Poll, TimeRunsOut;
  }

  predicate UsedUp(s: State) {
    Poll(s).1 == Success && Poll(s).0.res.value.next >= |Poll(s).0.res.value.message.rows|
  }

  /** The held message has no row left and its commit fails. */
  lemma FetchFails(s: State)
    requires UsedUp(s) && ResetRes(Poll(s).0).1 != Success
    ensures FetchRow(s) == (ResetRes(Poll(s).0).0, Error)
    ensures Tells(s.count, s.row, s.feed, ResetRes(Poll(s).0).0, Error)
  {
    PollMeaning(s);
    hide Poll, TimeRunsOut;
  }

  /** It is given up, and the next message is tried. */
  lemma FetchGoesOn(s: State, t: State, o: Outcome)
    requires UsedUp(s) && ResetRes(Poll(s).0).1 == Success
    ensures var s2 := ResetRes(Poll(s).0).0;
      && FetchRow(s) == FetchRow(s2)
      && (Tells(s2.count, s2.row, s2.feed, t, o) ==> Tells(s.count, s.row, s.feed, t, o))
  {
    var s1 := Poll(s).0;
    var s2 := ResetRes(s1).0;
    PollMeaning(s);
    FeedShrinks(s);
    StillRunsOut(s.feed, |s.feed| - |s2.feed|);
    assert s2.count == s.count && s2.row == s.row;
    hide Poll, ResetRes, TimeRunsOut, LimitReached;
  }

  lemma {:induction false} FetchMeaning(s: State)
    ensures Tells(s.count, s.row, s.feed, FetchRow(s).0, FetchRow(s).1)
    decreases |s.feed|, if s.res.Some? then 1 else 0
  {
    hide Tells, FetchRow, Deliver;
    var (s1, o) := Poll(s);
    if o != Success {
      FetchStops(s);
    } else if s1.res.value.next < |s1.res.value.message.rows| {
      FetchDelivers(s);
    } else if ResetRes(s1).1 != Success {
      FetchFails(s);
    } else {
      var s2 := ResetRes(s1).0;
      FetchMeaning(s2);
      FetchGoesOn(s, FetchRow(s2).0, FetchRow(s2).1);
    }
  }

  /** One of the calls made since the log was before is a description or a commit that failed. */
  predicate FailedSince(before: nat, log: seq<Call>) {
    exists k :: before <= k < |log| &&
      if log[k].Polled? then log[k].message.name == "" || !log[k].message.described
      else log[k].Committed? && !log[k].ok
  }

  /** A fetch is an error exactly when a description or a commit fails on its way, and then it stops. */
  lemma {:induction false} FetchErrors(s: State)
    ensures s.log <= FetchRow(s).0.log && (FetchRow(s).1 == Error <==> FailedSince(|s.log|, FetchRow(s).0.log))
    decreases |s.feed|, if s.res.Some? then 1 else 0
  {
    hide FetchRow, Poll, FailedSince, Tells;
    var (s1, o) := Poll(s);
    PollErrors(s);
    if o != Success {
      FetchStops(s);
    } else if s1.res.value.next < |s1.res.value.message.rows| {
      FetchDelivers(s);
      OneMore(|s.log|, s1.log, Deliver(s1).log[|s1.log|]);
      assert Deliver(s1).log == s1.log + [Deliver(s1).log[|s1.log|]];
    } else {
      DropErrors(|s.log|, s1);
      if ResetRes(s1).1 != Success {
        FetchFails(s);
      } else {
        var s2 := ResetRes(s1).0;
        FetchErrors(s2);
        FetchGoesOn(s, s, Success);
        Longer(|s.log|, s2.log, FetchRow(s2).0.log);
      }
    }
  }

  lemma PollErrors(s: State)
    ensures s.log <= Poll(s).0.log && (Poll(s).1 == Error <==> FailedSince(|s.log|, Poll(s).0.log))
  {
    hide Poll;
    PollMeaning(s);
    var t := Poll(s).0;
    if s.res.None? && t.res.Some? {
      OneMore(|s.log|, s.log, Polled(s.serial, t.res.value.message));
    }
  }

  lemma OneMore(before: nat, log: seq<Call>, c: Call)
    requires before <= |log|
    ensures FailedSince(before, log + [c]) <==>
      || FailedSince(before, log)
      || (c.Polled? && (c.message.name == "" || !c.message.described))
      || (c.Committed? && !c.ok)
    ensures !FailedSince(|log|, log)
  {
    var more := log + [c];
    assert forall k :: 0 <= k < |log| ==> more[k] == log[k];
    assert more[|log|] == c;
  }

  lemma Longer(before: nat, log: seq<Call>, more: seq<Call>)
    requires before <= |log| && log <= more
    ensures FailedSince(before, more) <==> FailedSince(before, log) || FailedSince(|log|, more)
  {
    assert forall k :: 0 <= k < |log| ==> more[k] == log[k];
  }

  lemma DropErrors(before: nat, s: State)
    requires s.res.Some? && before <= |s.log|
    ensures s.log <= ResetRes(s).0.log
    ensures FailedSince(before, ResetRes(s).0.log) <==> FailedSince(before, s.log) || ResetRes(s).1 != Success
    ensures ResetRes(s).1 == Success || ResetRes(s).1 == Error
  {
    hide FailedSince;
    var id, ok := s.res.value.id, s.res.value.message.commits;
    OneMore(before, s.log, Freed(id));
    OneMore(before, s.log, Committed(id, ok));
    OneMore(before, s.log + [Committed(id, ok)], Freed(id));
    assert s.log + [Committed(id, ok)] + [Freed(id)] == s.log + [Committed(id, ok), Freed(id)];
  }

  // ---------------------------------------------------------------- one topic at a time

  /** From s to t only messages of s's topic arrived, and every row came from them or from the message
      that s held. */
  predicate SameTopic(s: State, t: State) {
    && s.name.Some? && t.name == s.name && s.log <= t.log && s.serial <= t.serial
    && (t.res.Some? ==> t.res.value.id >= s.serial || (s.res.Some? && t.res.value.id == s.res.value.id))
    && (forall k :: |s.log| <= k < |t.log| && t.log[k].Polled? ==>
          t.log[k].id >= s.serial && t.log[k].message.name == s.name.value)
    && (forall k :: |s.log| <= k < |t.log| && t.log[k].Delivered? ==>
          t.log[k].id >= s.serial || (s.res.Some? && t.log[k].id == s.res.value.id))
  }

  lemma SameTopicTrans(s: State, m: State, t: State)
    requires SameTopic(s, m) && SameTopic(m, t)
    ensures SameTopic(s, t)
  {
    assert forall k :: 0 <= k < |m.log| ==> t.log[k] == m.log[k];
  }

  lemma PollSameTopic(s: State)
    requires s.name.Some? && Poll(s).1 == Success
    ensures SameTopic(s, Poll(s).0)
  {
    PollMeaning(s);
    PollSerial(s);
    hide Poll;
  }

  lemma {:induction false} PollSerial(s: State)
    ensures var t := Poll(s).0;
      s.serial <= t.serial && (t.res.Some? && s.res.None? ==> t.res.value.id == s.serial)
    decreases |s.feed|
  {
    if s.res.None? && !LimitReached(s) && s.feed != [] && !s.feed[0].timeUp && s.feed[0].got.None? {
      PollSerial(s.(feed := s.feed[1..]));
    }
  }

  lemma DropSameTopic(s: State)
    requires s.name.Some? && s.res.Some?
    ensures SameTopic(s, ResetRes(s).0)
  {
  }

  lemma DeliverSameTopic(s: State)
    requires s.name.Some? && s.res.Some? && s.res.value.next < |s.res.value.message.rows|
    ensures SameTopic(s, Deliver(s))
  {
  }

  lemma {:induction false} FetchSameTopic(s: State)
    requires s.name.Some? && FetchRow(s).1 == Success
    ensures SameTopic(s, FetchRow(s).0)
    decreases |s.feed|, if s.res.Some? then 1 else 0
  {
    hide FetchRow, SameTopic, Tells, Poll;
    var (s1, o) := Poll(s);
    if o != Success {
      FetchStops(s);
    } else {
      PollSameTopic(s);
      NameKept(s, s1);
      if s1.res.value.next < |s1.res.value.message.rows| {
        FetchDelivers(s);
        DeliverSameTopic(s1);
        SameTopicTrans(s, s1, Deliver(s1));
      } else if ResetRes(s1).1 != Success {
        FetchFails(s);
      } else {
        var s2 := ResetRes(s1).0;
        FetchGoesOn(s, s, Success);
        DropSameTopic(s1);
        SameTopicTrans(s, s1, s2);
        FetchSameTopic(s2);
        SameTopicTrans(s, s2, FetchRow(s2).0);
      }
    }
  }

  lemma NameKept(s: State, t: State)
    requires SameTopic(s, t)
    ensures t.name == s.name && t.name.Some?
  {
  }

  /** Executes, fetches and questions for more results, all of them successful. */
  predicate Smoothly(s: State, more: seq<Op>)
    decreases |more|
  {
    more == []
    || (more[0] in {ExecuteOp, FetchOp, MoreOp} && Apply(s, more[0]).1 == Success
        && Smoothly(Apply(s, more[0]).0, more[1..]))
  }

  function After(s: State, more: seq<Op>): State
    decreases |more|
  {
    if more == [] then s else After(Apply(s, more[0]).0, more[1..])
  }

  /** As long as no outcome is no data or an error, every message that arrives is of one topic, and the
      rows come from those messages and the one held before. */
  lemma {:induction false} OneTopic(s: State, more: seq<Op>)
    requires s.name.Some? && Smoothly(s, more)
    ensures SameTopic(s, After(s, more))
    decreases |more|
  {
    hide SameTopic, Poll, FetchRow;
    if more == [] {
      NothingHappens(s);
    } else {
      var t := Apply(s, more[0]).0;
      match more[0] {
        case ExecuteOp => PollSameTopic(s);
        case FetchOp => FetchSameTopic(s);
        case _ => NothingHappens(s);
      }
      NameKept(s, t);
      OneTopic(t, more[1..]);
      SameTopicTrans(s, t, After(t, more[1..]));
    }
  }

  lemma NothingHappens(s: State)
    requires s.name.Some?
    ensures SameTopic(s, s)
  {
  }

  /** In every run a held message whose name could be read is of the topic remembered. */
  lemma {:induction false} HeldName(feed: seq<Tick>, ops: seq<Op>)
    requires Run(feed, ops).Some?
    ensures var s := Run(feed, ops).value;
      s.res.Some? && s.res.value.message.name != "" ==> s.name == Some(s.res.value.message.name)
    decreases |ops|
  {
    if ops != [] {
      var before, last := ops[..|ops| - 1], ops[|ops| - 1];
      HeldName(feed, before);
      var s := Run(feed, before).value;
      match last {
        case ExecuteOp => PollNamed(s);
        case FetchOp => FetchNamed(s);
        case _ =>
      }
    }
  }

  predicate Named(s: State) {
    s.res.Some? && s.res.value.message.name != "" ==> s.name == Some(s.res.value.message.name)
  }

  lemma PollNamed(s: State)
    requires Named(s)
    ensures Named(Poll(s).0)
  {
    PollMeaning(s);
    hide Poll;
  }

  lemma {:induction false} FetchNamed(s: State)
    requires Named(s)
    ensures Named(FetchRow(s).0)
    decreases |s.feed|, if s.res.Some? then 1 else 0
  {
    PollNamed(s);
    var (s1, o) := Poll(s);
    if o == Success && s1.res.value.next >= |s1.res.value.message.rows| && ResetRes(s1).1 == Success {
      FetchNamed(ResetRes(s1).0);
    }
  }

  lemma StillRunsOut(feed: seq<Tick>, k: nat)
    requires k <= |feed|
    ensures TimeRunsOut(feed[k..]) ==> TimeRunsOut(feed)
  {
    if TimeRunsOut(feed[k..]) {
      var i :| 0 <= i < |feed[k..]| && feed[k..][i].timeUp;
      assert feed[k + i].timeUp;
    }
  }

  /** Polling eats the feed from the front. */
  lemma {:induction false} FeedShrinks(s: State)
    ensures |Poll(s).0.feed| <= |s.feed| && Poll(s).0.feed == s.feed[|s.feed| - |Poll(s).0.feed|..]
    decreases |s.feed|
  {
    if s.res.None? && !LimitReached(s) && s.feed != [] && !s.feed[0].timeUp && s.feed[0].got.None? {
      FeedShrinks(s.(feed := s.feed[1..]));
    }
  }

  /** The last record limit among the settings, -1 when there is none. */
  function LastLimit(settings: seq<Setting>): int {
    if settings == [] then -1
    else if settings[|settings| - 1].Limit? then settings[|settings| - 1].n
    else LastLimit(settings[..|settings| - 1])
  }

  predicate AllTaken(settings: seq<Setting>) {
    forall i :: 0 <= i < |settings| ==> settings[i] != Other(false)
  }

  /** The settings are all taken exactly when no other key is refused, and then the last limit counts. */
  lemma {:induction false} ConfigureMeaning(max: int, settings: seq<Setting>)
    ensures Configure(max, settings).1 <==> AllTaken(settings)
    ensures AllTaken(settings) ==>
      Configure(max, settings).0 == if exists i :: 0 <= i < |settings| && settings[i].Limit? then LastLimit(settings)
        else max
    decreases |settings|
  {
    if settings != [] {
      var rest := settings[1..];
      assert forall i :: 0 < i < |settings| ==> settings[i] == rest[i - 1];
      assert forall i :: 0 <= i < |rest| ==> rest[i] == settings[i + 1];
      LastLimitRest(settings);
      ConfigureMeaning(if settings[0].Limit? then settings[0].n else max, rest);
    }
  }

  lemma {:induction false} LastLimitRest(settings: seq<Setting>)
    requires settings != []
    ensures LastLimit(settings) ==
      if (exists i :: 1 <= i < |settings| && settings[i].Limit?) || !settings[0].Limit? then LastLimit(settings[1..])
      else settings[0].n
    decreases |settings|
  {
    var front := settings[..|settings| - 1];
    if |settings| > 1 {
      LastLimitRest(front);
      assert settings[1..][..|settings| - 2] == front[1..];
      assert forall i :: 0 <= i < |front| ==> front[i] == settings[i];
    }
  }

  lemma {:induction false} NoLimit(settings: seq<Setting>)
    requires forall i :: 0 <= i < |settings| ==> !settings[i].Limit?
    ensures LastLimit(settings) == -1
  {
    if settings != [] {
      NoLimit(settings[..|settings| - 1]);
    }
  }

  /** Opening succeeds exactly when every part of it does; it then starts with the last record limit
      given, -1 when there is none, and nothing counted, and a failure leaves no consumer behind.  What
      was learned before, the cached topic name and the commit flag, stays. */
  lemma OpenMeaning(s: State, a: Opening)
    requires !s.open && !s.subscribed && s.res.None?
    ensures var (t, o) := Open(s, a);
      && (o == Success <==> a.named && a.conf && a.address && AllTaken(a.settings) && a.built && a.joined)
      && (o == Success ==>
            t == s.(open := true, subscribed := true, max := LastLimit(a.settings), count := 0,
                    log := s.log + [Opened, Subscribed(LastLimit(a.settings))]))
      && (o != Success ==>
            o == Error && !t.open && !t.subscribed && t.res.None? && t.serial == s.serial && t.count == s.count)
      && t.name == s.name && t.doNotCommit == s.doNotCommit && t.feed == s.feed
  {
    ConfigureMeaning(-1, a.settings);
    if forall i :: 0 <= i < |a.settings| ==> !a.settings[i].Limit? {
      NoLimit(a.settings);
    }
    hide Configure, LastLimit, AllTaken;
    var limit := Configure(-1, a.settings).0;
    assert s.log + [Opened] + [Subscribed(limit)] == s.log + [Opened, Subscribed(limit)];
  }

  /** After a reset nothing is held or open; the held message was freed, and committed unless a
      failure forbade it, before the consumer unsubscribed and closed. */
  lemma ResetMeaning(s: State)
    requires s.subscribed ==> s.open
    ensures var t := Reset(s);
      && t.res.None? && t.row.None? && !t.open && !t.subscribed
      && t.name == s.name && t.count == s.count && t.feed == s.feed
      && t.log == s.log
           + (if s.res.Some? && !s.doNotCommit then [Committed(s.res.value.id, s.res.value.message.commits)] else [])
           + (if s.res.Some? then [Freed(s.res.value.id)] else [])
           + (if s.subscribed then [Unsubscribed] else []) + (if s.open then [Closed] else [])
      && t.doNotCommit == (s.doNotCommit || (s.res.Some? && !s.res.value.message.commits))
  {
    if s.res.Some? && !s.doNotCommit {
      var id := s.res.value.id;
      var ok := s.res.value.message.commits;
      assert s.log + [Committed(id, ok), Freed(id)] == s.log + [Committed(id, ok)] + [Freed(id)];
    }
    assert s.log + [] == s.log;
  }

  // ---------------------------------------------------------------- the C functions

  /** topic_t.  feed, serial and log are the outside world; the other fields are the driver's. */
  class Consumer {
    var open: bool
    var subscribed: bool
    var res: Option<Result>
    var row: Option<Row>
    var doNotCommit: bool
    var max: int
    var count: nat
    var name: Option<string>
    var feed: seq<Tick>
    var serial: nat
    ghost var log: seq<Call>

    ghost function Now(): State
      reads this
    {
      State(open, subscribed, res, row, doNotCommit, max, count, name, feed, serial, log)
    }

    constructor (feed: seq<Tick>)
      ensures Now() == Initial(feed)
    {
      open, subscribed, res, row, doNotCommit := false, false, None, None, false;
      max, count, name, serial, log := -1, 0, None, 0, [];
      this.feed := feed;
    }

    /** _topic_desc_tripple: the name is cached before the rest of the description can fail. */
    method DescribeRes(m: Message) returns (o: Outcome)
      modifies this`name
      ensures o == Describe(old(name), m) && name == NameAfter(old(name), m)
      ensures o == Error <==> m.name == "" || !m.described
      ensures o == NoData <==> m.name != "" && m.described && old(name).Some? && old(name).value != m.name
      ensures name == if m.name == "" then old(name) else Some(m.name)
    {
      if m.name == "" { return Error; }
      var change := name.Some? && name.value != m.name;
      name := Some(m.name);
      if !m.described { return Error; }
      return if change then NoData else Success;
    }

    method PollRes() returns (o: Outcome)
      modifies this
      ensures (Now(), o) == Poll(old(Now()))
    {
      hide Poll, Describe, NameAfter;
      while res.None?
        invariant Poll(Now()) == Poll(old(Now()))
        decreases |feed|, if res.None? then 1 else 0
      {
        PollOnce(Now());
        if max >= 0 && count >= max { return NoData; }
        if feed == [] { return Waiting; }
        var t := feed[0];
        feed := feed[1..];
        if t.timeUp { return NoData; }
        if t.got.Some? {
          var m := t.got.value;
          DescribeError(name, m);
          res, serial, log := Some(Result(serial, m, 0)), serial + 1, log + [Polled(serial, m)];
          o := DescribeRes(m);
          if o == NoData { return NoData; }
          if o != Success {
            doNotCommit := true;
            return Error;
          }
          return Success;
        }
      }
      PollOnce(Now());
      return Success;
    }

    /** One round of polling. */
    lemma PollOnce(s: State)
      ensures Poll(s) ==
        if s.res.Some? then (s, Success)
        else if LimitReached(s) then (s, NoData)
        else if s.feed == [] then (s, Waiting)
        else if s.feed[0].timeUp then (s.(feed := s.feed[1..]), NoData)
        else if s.feed[0].got.None? then Poll(s.(feed := s.feed[1..]))
        else (Receive(s.(feed := s.feed[1..]), s.feed[0].got.value), Describe(s.name, s.feed[0].got.value))
    {
    }

    lemma DescribeError(name: Option<string>, m: Message)
      ensures Describe(name, m) == Error <==> Broken(m)
      ensures Describe(name, m) != Waiting
    {
    }

    /** _execute. */
    method Execute() returns (o: Outcome)
      modifies this
      ensures (Now(), o) == Poll(old(Now()))
    {
      o := PollRes();
    }

    /** _topic_reset_res. */
    method DropRes() returns (o: Outcome)
      modifies this
      ensures (Now(), o) == ResetRes(old(Now()))
    {
      ghost var was := log;
      o := Success;
      if res.Some? && !doNotCommit {
        var ok := res.value.message.commits;
        log := log + [Committed(res.value.id, ok)];
        if !ok {
          doNotCommit := true;
          o := Error;
        }
      }
      if res.Some? {
        log := log + [Freed(res.value.id)];
        assert was + [Committed(res.value.id, res.value.message.commits)] + [Freed(res.value.id)]
            == was + [Committed(res.value.id, res.value.message.commits), Freed(res.value.id)];
        res := None;
      }
    }

    method Fetch() returns (o: Outcome)
      modifies this
      ensures (Now(), o) == FetchRow(old(Now()))
    {
      hide FetchRow, Poll, ResetRes, Tells;
      while true
        invariant FetchRow(Now()) == FetchRow(old(Now()))
        decreases |feed|, if res.Some? then 1 else 0
      {
        ghost var s := Now();
        o := PollRes();
        if o != Success {
          FetchStops(s);
          return;
        }
        var r := res.value;
        if r.next < |r.message.rows| {
          FetchDelivers(s);
          var next := r.message.rows[r.next];
          res := Some(r.(next := r.next + 1));
          row, count, log := Some(next), count + 1, log + [Delivered(r.id, next)];
          return Success;
        }
        o := DropRes();
        if o != Success {
          FetchFails(s);
          return Error;
        }
        FetchGoesOn(s, s, Success);
      }
    }

    method MoreResults() returns (o: Outcome)
      ensures o == if res.Some? then Success else NoData
      ensures (Now(), o) == Apply(Now(), MoreOp)
    {
      return if res.Some? then Success else NoData;
    }

    /** _topic_reset_tmq. */
    method Close()
      modifies this
      ensures Now() == CloseConsumer(old(Now()))
    {
      if !open { return; }
      if subscribed {
        log := log + [Unsubscribed];
        subscribed := false;
      }
      log := log + [Closed];
      open := false;
    }

    /** topic_reset. */
    method ResetAll()
      modifies this
      ensures Now() == Reset(old(Now()))
    {
      row := None;
      var _ := DropRes();
      Close();
    }

    /** topic_open. */
    method OpenTopic(a: Opening) returns (o: Outcome)
      requires !open && !subscribed
      modifies this
      ensures (Now(), o) == Open(old(Now()), a)
    {
      if !a.named { return Error; }
      if !a.conf { return Error; }
      max := -1;
      if !a.address { return Error; }
      var i := 0;
      while i < |a.settings|
        invariant i <= |a.settings| && Configure(max, a.settings[i..]) == Configure(-1, a.settings)
        invariant Now() == old(Now()).(max := max)
      {
        match a.settings[i] {
          case Limit(n) => max := n;
          case Other(taken) => if !taken { return Error; }
          case _ =>
        }
        i := i + 1;
      }
      if !a.built { return Error; }
      open, log := true, log + [Opened];
      if !a.joined {
        ResetAll();
        return Error;
      }
      subscribed, count, log := true, 0, log + [Subscribed(max)];
      return Success;
    }
  }
}
