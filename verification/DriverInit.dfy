/** The compare-and-swap protocol that picks the process-wide driver (conn_init_driver_type).

    Any number of calls run it concurrently.  One atomic access to the shared word, or one
    return from taos_options, is one step; a schedule interleaves the steps of all calls
    in any order. */
module DriverInit {
  import opened Tally

  /** The shared word s_driver_state. */
  datatype Word = Uninit | Initializing | Native | Websocket

  /** Where a call stands.  Judge holds the chosen driver the call has read. */
  datatype Pc =
    | Cas                // about to compare-and-swap Uninit -> Initializing
    | Options            // inside taos_options
    | Reopen             // taos_options failed; about to store Uninit
    | Publish            // taos_options succeeded; about to store the driver
    | Spin               // re-reading the word while it is Initializing
    | Judge(prev: Word)  // about to compare prev with the wanted driver
    | Returned(rc: int)

  /** One call.  retries counts its recursive restarts; seen is the number of failed calls
      there were at its latest restart.  Both only observe the run. */
  datatype Call = Call(websocket: bool, pc: Pc, retries: nat, seen: nat)

  /** failed: the calls whose taos_options failed; successes: how often it succeeded. */
  datatype State = State(word: Word, calls: seq<Call>, failed: set<nat>, successes: nat)

  function Desired(call: Call): Word {
    if call.websocket then Websocket else Native
  }

  predicate Chosen(word: Word) {
    word.Native? || word.Websocket?
  }

  /** The call that won the compare-and-swap and has not stored its outcome yet. */
  predicate Holds(call: Call) {
    call.pc.Options? || call.pc.Reopen? || call.pc.Publish?
  }

  function Goto(s: State, c: nat, pc: Pc): State
    requires c < |s.calls|
  {
    s.(calls := s.calls[c := s.calls[c].(pc := pc)])
  }

  /** Every call is about to start and no driver has been chosen. */
  predicate Init(s: State) {
    s.word == Uninit && s.failed == {} && s.successes == 0 &&
    forall c :: 0 <= c < |s.calls| ==> s.calls[c].pc == Cas && s.calls[c].retries == 0 && s.calls[c].seen == 0
  }

  /** One atomic step of call c. */
  predicate Step(s: State, c: nat, s': State) {
    c < |s.calls| &&
    var call := s.calls[c];
    match call.pc
    case Cas =>
      s' == (match s.word
             case Uninit => Goto(s, c, Options).(word := Initializing)
             case Initializing => Goto(s, c, Spin)
             case _ => Goto(s, c, Judge(s.word)))
    case Options =>
      s' == Goto(s, c, Publish).(successes := s.successes + 1) ||
      s' == Goto(s, c, Reopen).(failed := s.failed + {c})
    case Reopen => s' == Goto(s, c, Returned(-1)).(word := Uninit)
    case Publish => s' == Goto(s, c, Returned(0)).(word := Desired(call))
    case Spin =>
      s' == (match s.word
             case Initializing => s
             case Uninit =>
               s.(calls := s.calls[c := call.(pc := Cas, retries := call.retries + 1, seen := |s.failed|)])
             case _ => Goto(s, c, Judge(s.word)))
    case Judge(prev) => s' == Goto(s, c, Returned(if prev == Desired(call) then 0 else -1))
    case Returned(_) => false
  }

  /** What every reachable state satisfies. */
  ghost predicate Inv(s: State) {
    && MutualExclusion(s)
    && WordMeaning(s)
    && SuccessMeaning(s)
    && (forall c :: c in s.failed ==> c < |s.calls| && (s.calls[c].pc == Reopen || s.calls[c].pc == Returned(-1)))
    && (forall c :: 0 <= c < |s.calls| ==> CallInv(s, c))
  }

  ghost predicate MutualExclusion(s: State) {
    forall c, d :: 0 <= c < |s.calls| && 0 <= d < |s.calls| && Holds(s.calls[c]) && Holds(s.calls[d]) ==> c == d
  }

  ghost predicate WordMeaning(s: State) {
    s.word == Initializing <==> exists c :: 0 <= c < |s.calls| && Holds(s.calls[c])
  }

  ghost predicate SuccessMeaning(s: State) {
    s.successes == if Chosen(s.word) || Publishing(s) then 1 else 0
  }

  ghost predicate Publishing(s: State) {
    exists d :: 0 <= d < |s.calls| && s.calls[d].pc == Publish
  }

  ghost predicate CallInv(s: State, c: nat)
    requires c < |s.calls|
  {
    var call := s.calls[c];
    && call.retries <= call.seen <= |s.failed|
    && (c in s.failed ==> call.retries < |s.failed|)
    && (match call.pc
        case Cas => Reopening(s) ==> call.seen < |s.failed|
        case Spin => Reopening(s) || s.word == Uninit ==> call.seen < |s.failed|
        case Reopen => c in s.failed
        case Judge(prev) => Chosen(prev) && prev == s.word
        case Returned(rc) =>
          || (rc == 0 && s.word == Desired(call))
          || (rc == -1 && (c in s.failed || (Chosen(s.word) && s.word != Desired(call))))
        case _ => true)
  }

  ghost predicate Reopening(s: State) {
    exists d :: 0 <= d < |s.calls| && s.calls[d].pc == Reopen
  }

  lemma InitInv(s: State)
    requires Init(s)
    ensures Inv(s)
  {
  }

  /** Mutual exclusion and the meaning of the word survive a step. */
  lemma HolderStep(s: State, c: nat, s': State)
    requires MutualExclusion(s) && WordMeaning(s) && Step(s, c, s')
    ensures MutualExclusion(s') && WordMeaning(s')
  {
    assert forall d :: 0 <= d < |s.calls| && d != c ==> s'.calls[d] == s.calls[d];
    if Holds(s.calls[c]) {
      assert s.word == Initializing;
    }
    if Holds(s'.calls[c]) {
      assert s'.word == Initializing;
    }
  }

  lemma SuccessStep(s: State, c: nat, s': State)
    requires MutualExclusion(s) && WordMeaning(s) && SuccessMeaning(s) && Step(s, c, s')
    ensures SuccessMeaning(s')
  {
    assert forall d :: 0 <= d < |s.calls| && d != c ==> s'.calls[d] == s.calls[d];
    if Holds(s.calls[c]) {
      assert s.word == Initializing;
      assert Publishing(s) ==> s.calls[c].pc == Publish;
      assert s'.calls[c].pc == Publish ==> Publishing(s');
      assert s'.calls[c].pc != Publish ==> !Publishing(s');
    } else {
      assert s'.calls[c].pc != Publish && s'.successes == s.successes;
      assert Publishing(s) <==> Publishing(s');
    }
  }

  /** The bookkeeping of the call that steps. */
  lemma OwnStep(s: State, c: nat, s': State)
    requires Inv(s) && Step(s, c, s')
    ensures CallInv(s', c)
  {
    assert CallInv(s, c);
    if s.calls[c].pc == Options {
      assert Holds(s.calls[c]);
      if s'.calls[c].pc == Reopen {
        assert |s'.failed| == |s.failed| + 1;
      }
    } else if s.calls[c].pc == Cas || s.calls[c].pc == Spin {
      assert Reopening(s') ==> Reopening(s);
    }
  }

  /** A step of call c as another call d sees it. */
  lemma OtherStep(s: State, c: nat, s': State, d: nat)
    requires Inv(s) && Step(s, c, s') && d < |s.calls| && d != c
    ensures CallInv(s', d)
  {
    assert CallInv(s, c) && CallInv(s, d);
    OtherCall(s, c, s', d);
  }

  /** What the step of one call leaves true of another. */
  lemma OtherCall(s: State, c: nat, s': State, d: nat)
    requires WordMeaning(s) && Step(s, c, s') && d < |s.calls| && d != c && CallInv(s, c) && CallInv(s, d)
    requires c in s.failed ==> s.calls[c].pc == Reopen || s.calls[c].pc == Returned(-1)
    ensures CallInv(s', d)
  {
    assert s'.calls[d] == s.calls[d];
    if Holds(s.calls[c]) {
      assert s.word == Initializing;
    }
    if s.calls[c].pc == Options && s'.calls[c].pc == Reopen {
      assert |s'.failed| == |s.failed| + 1;
    } else {
      assert Reopening(s') ==> Reopening(s);
    }
  }

  lemma StepInv(s: State, c: nat, s': State)
    requires Inv(s) && Step(s, c, s')
    ensures Inv(s')
  {
    HolderStep(s, c, s');
    SuccessStep(s, c, s');
    forall d | 0 <= d < |s'.calls| ensures CallInv(s', d) {
      if d == c {
        OwnStep(s, c, s');
      } else {
        OtherStep(s, c, s', d);
      }
    }
    assert CallInv(s, c);
  }

  // ---------------------------------------------------------------- whole runs

  /** A run: step i of the schedule `sched` takes tr[i] to tr[i + 1]. */
  ghost predicate Run(tr: seq<State>, sched: seq<nat>) {
    |tr| == |sched| + 1 && Init(tr[0]) &&
    forall i :: 0 <= i < |sched| ==> Step(tr[i], sched[i], tr[i + 1])
  }

  lemma {:induction false} RunInv(tr: seq<State>, sched: seq<nat>, i: nat)
    requires Run(tr, sched) && i < |tr|
    ensures Inv(tr[i]) && |tr[i].calls| == |tr[0].calls|
  {
    if i == 0 {
      InitInv(tr[0]);
    } else {
      RunInv(tr, sched, i - 1);
      StepInv(tr[i - 1], sched[i - 1], tr[i]);
    }
  }

  /** In every interleaving at most one call is inside taos_options (or between its return
      and the store that ends the claim), and taos_options succeeds at most once. */
  lemma OneInitialiser(tr: seq<State>, sched: seq<nat>, i: nat, c: nat, d: nat)
    requires Run(tr, sched) && i < |tr|
    ensures tr[i].successes <= 1
    ensures c < |tr[i].calls| && d < |tr[i].calls| ==>
      tr[i].calls[c].pc in {Options, Reopen, Publish} && tr[i].calls[d].pc in {Options, Reopen, Publish} ==> c == d
  {
    RunInv(tr, sched, i);
  }

  lemma ChosenStep(s: State, c: nat, s': State)
    requires WordMeaning(s) && Step(s, c, s') && Chosen(s.word)
    ensures s'.word == s.word
  {
    assert !Holds(s.calls[c]);
  }

  /** A chosen driver never changes. */
  lemma {:induction false} ChosenForever(tr: seq<State>, sched: seq<nat>, i: nat, j: nat)
    requires Run(tr, sched) && i <= j < |tr| && tr[i].word in {Native, Websocket}
    ensures tr[j].word == tr[i].word
  {
    if i < j {
      ChosenForever(tr, sched, i, j - 1);
      RunInv(tr, sched, j - 1);
      ChosenStep(tr[j - 1], sched[j - 1], tr[j]);
    }
  }

  /** A call that has returned stays returned, with what it wanted unchanged. */
  lemma {:induction false} ReturnedForever(tr: seq<State>, sched: seq<nat>, i: nat, j: nat, c: nat)
    requires Run(tr, sched) && i <= j < |tr| && c < |tr[i].calls| && tr[i].calls[c].pc.Returned?
    ensures c < |tr[j].calls| && tr[j].calls[c] == tr[i].calls[c]
  {
    hide Step;
    if i < j {
      ReturnedForever(tr, sched, i, j - 1, c);
      ReturnedStep(tr[j - 1], sched[j - 1], tr[j], c);
    }
  }

  lemma ReturnedStep(s: State, c: nat, s': State, d: nat)
    requires Step(s, c, s') && d < |s.calls| && s.calls[d].pc.Returned?
    ensures d < |s'.calls| && s'.calls[d] == s.calls[d]
  {
  }

  /** A call that returned 0 agrees with the process-wide driver from then on; a call that
      returned -1 either saw its own taos_options fail or wanted the other driver. */
  lemma ReturnMeaning(tr: seq<State>, sched: seq<nat>, i: nat, j: nat, c: nat)
    requires Run(tr, sched) && i <= j < |tr| && c < |tr[i].calls| && tr[i].calls[c].pc.Returned?
    ensures tr[i].calls[c].pc.rc == 0 ==> tr[j].word == if tr[i].calls[c].websocket then Websocket else Native
    ensures tr[i].calls[c].pc.rc != 0 ==>
              tr[i].calls[c].pc.rc == -1 &&
              (c in tr[i].failed || tr[j].word == if tr[i].calls[c].websocket then Native else Websocket)
  {
    RunInv(tr, sched, i);
    assert CallInv(tr[i], c);
    if Chosen(tr[i].word) {
      ChosenForever(tr, sched, i, j);
    }
  }

  /** A call restarts at most once per distinct other call whose taos_options failed. */
  lemma RetriesPayForFailures(tr: seq<State>, sched: seq<nat>, i: nat, c: nat)
    requires Run(tr, sched) && i < |tr| && c < |tr[i].calls|
    ensures tr[i].calls[c].retries <= |tr[i].failed - {c}| < |tr[i].calls|
  {
    RunInv(tr, sched, i);
    assert CallInv(tr[i], c);
    var others := tr[i].failed - {c};
    assert if c in tr[i].failed then tr[i].failed == others + {c} else tr[i].failed == others;
    IndexSetSize(others + {c}, |tr[i].calls|);
  }

  // ---------------------------------------------------------------- progress

  ghost predicate Finished(s: State) {
    forall c :: 0 <= c < |s.calls| ==> s.calls[c].pc.Returned?
  }

  /** While some call is unfinished, some step changes the state: spinning calls are never
      all there is. */
  lemma Progress(tr: seq<State>, sched: seq<nat>, i: nat) returns (c: nat, s': State)
    requires Run(tr, sched) && i < |tr| && !Finished(tr[i])
    ensures Step(tr[i], c, s') && s' != tr[i]
  {
    var s := tr[i];
    RunInv(tr, sched, i);
    c :| c < |s.calls| && !s.calls[c].pc.Returned?;
    if s.calls[c].pc == Spin && s.word == Initializing {
      c :| c < |s.calls| && Holds(s.calls[c]);
    }
    var call := s.calls[c];
    match call.pc
    case Cas =>
      s' := if s.word == Uninit then Goto(s, c, Options).(word := Initializing)
            else if s.word == Initializing then Goto(s, c, Spin) else Goto(s, c, Judge(s.word));
    case Options => s' := Goto(s, c, Publish).(successes := s.successes + 1);
    case Reopen => s' := Goto(s, c, Returned(-1)).(word := Uninit);
    case Publish => s' := Goto(s, c, Returned(0)).(word := Desired(call));
    case Spin =>
      s' := if s.word == Uninit
            then s.(calls := s.calls[c := call.(pc := Cas, retries := call.retries + 1, seen := |s.failed|)])
            else Goto(s, c, Judge(s.word));
    case Judge(prev) => s' := Goto(s, c, Returned(if prev == Desired(call) then 0 else -1));
    assert s'.calls[c] != s.calls[c];
  }

  /** How many more steps a call can still need when n calls take part. */
  function Potential(n: nat): Call -> nat {
    (call: Call) =>
      (if call.seen <= n then 2 * (n - call.seen) else 0) +
      (match call.pc
       case Cas => 5
       case Spin => 4
       case Options => 3
       case Reopen => 2
       case Publish => 2
       case Judge(_) => 1
       case Returned(_) => 0)
  }

  function Measure(s: State): nat {
    Total(s.calls, Potential(|s.calls|))
  }

  /** A step changes at most the call that takes it. */
  lemma OthersKept(s: State, c: nat, s': State)
    requires Step(s, c, s')
    ensures |s'.calls| == |s.calls| && s'.calls == s.calls[c := s'.calls[c]]
    ensures s' != s ==> s'.calls[c] != s.calls[c]
  {
  }

  /** A step that changes the state uses up potential of the call that takes it. */
  lemma CallDescends(s: State, c: nat, s': State)
    requires Step(s, c, s') && CallInv(s, c) && |s.failed| <= |s.calls| && s'.calls[c] != s.calls[c]
    ensures Potential(|s.calls|)(s'.calls[c]) < Potential(|s.calls|)(s.calls[c])
  {
  }

  /** Every step that changes the state lowers the measure, restarts included. */
  lemma StepDescends(s: State, c: nat, s': State)
    requires Inv(s) && Step(s, c, s') && s' != s
    ensures Measure(s') < Measure(s)
  {
    OthersKept(s, c, s');
    assert CallInv(s, c);
    IndexSetSize(s.failed, |s.calls|);
    CallDescends(s, c, s');
    TotalUpdate(s.calls, c, s'.calls[c], Potential(|s.calls|));
  }

  /** The number of steps of a run that change the state. */
  ghost function Changes(tr: seq<State>): nat {
    if |tr| <= 1 then 0
    else Changes(tr[..|tr| - 1]) + if tr[|tr| - 1] == tr[|tr| - 2] then 0 else 1
  }

  lemma {:induction false} ChangesBound(tr: seq<State>, sched: seq<nat>)
    requires Run(tr, sched)
    ensures Changes(tr) + Measure(tr[|tr| - 1]) <= Measure(tr[0])
  {
    var n := |sched|;
    if n > 0 {
      ChangesBound(tr[..n], sched[..n - 1]);
      RunInv(tr, sched, n - 1);
      assert Step(tr[n - 1], sched[n - 1], tr[n]);
      assert tr[..n][n - 1] == tr[n - 1];
      if tr[n] != tr[n - 1] {
        StepDescends(tr[n - 1], sched[n - 1], tr[n]);
      }
    }
  }

  /** With n calls, no run, however long, contains more than n * (2n + 5) steps other than
      re-reading an unchanged word: no retry chain is endless.  With Progress, every
      schedule that keeps taking effective steps ends with all calls returned. */
  lemma NoEndlessRetry(tr: seq<State>, sched: seq<nat>)
    requires Run(tr, sched)
    ensures var n := |tr[0].calls|; Changes(tr) <= n * (2 * n + 5)
  {
    var n := |tr[0].calls|;
    ChangesBound(tr, sched);
    TotalAtMost(tr[0].calls, Potential(n), 2 * n + 5);
  }

  /** taos_options may succeed or fail, and only its outcome decides which: a call inside it can go on
      either way, and both ways are recorded. */
  lemma EitherOutcome(s: State, c: nat)
    requires c < |s.calls| && s.calls[c].pc == Options
    ensures var good := s.(calls := s.calls[c := s.calls[c].(pc := Publish)], successes := s.successes + 1);
      var bad := s.(calls := s.calls[c := s.calls[c].(pc := Reopen)], failed := s.failed + {c});
      Step(s, c, good) && Step(s, c, bad) && forall s' :: Step(s, c, s') ==> s' == good || s' == bad
  {
  }

  /** The winner of the claim enters taos_options; everybody else waits or compares. */
  lemma ClaimDecides(s: State, c: nat, s': State)
    requires c < |s.calls| && s.calls[c].pc == Cas && Step(s, c, s')
    ensures s.word == Uninit <==> s'.calls[c].pc == Options
    ensures s.word == Uninit ==> s'.word == Initializing
    ensures s.word == Initializing ==> s'.calls[c].pc == Spin && s'.word == s.word
    ensures s.word in {Native, Websocket} ==> s'.calls[c].pc == Judge(s.word) && s'.word == s.word
  {
  }
}
