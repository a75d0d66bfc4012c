/** Lifetimes of environment, connection and descriptor handles under concurrent API calls.

    Every atomic access to a reference count or to a child counter is one step; the steps of
    any number of threads interleave freely.  A failed OA_ILE assertion, or an access to a
    structure whose memory has been given back, sets `failed`. */
module Handles {
  import opened Tally

  datatype Kind = Env | Conn | Desc

  /** Live until the count reaches zero; then the thread that took it to zero works through
      the release function and finally calls free(). */
  datatype Life = Live | Uncounting | Unreffing | Released | Freed

  /** refc and kids are the two atomics.  open: the application's own reference is still
      there; claimed: a free call on the handle has passed its checks; releaser: the thread
      that runs the release.  The last three only observe the run. */
  datatype Obj = Obj(
    kind: Kind, parent: nat, refc: int, kids: int, life: Life, open: bool, claimed: bool, releaser: nat)

  /** Where a thread stands inside SQLAllocHandle, SQLFreeHandle or another handle operation.
      `dead` lists the structures whose release this thread is running, outermost last. */
  datatype Pc =
    | Idle
    | AllocCreate(h: nat)                    // bracket reference taken, about to calloc
    | AllocParentRef(h: nat)                 // about to take the child's reference on h
    | AllocCount(h: nat)                     // about to count the child in h
    | AllocPublish(h: nat)                   // about to set refc to 1 and hand the child out
    | FreeCheck(h: nat)                      // bracket reference taken, about to load the child counter
    | FreeDrop(h: nat)                       // checks passed, about to drop the application's reference
    | EndUnref(h: nat)                       // about to drop the bracket reference
    | Uncount(h: nat, dead: seq<nat>)        // h's count is zero; about to leave the parent's counter
    | UnrefParent(h: nat, dead: seq<nat>)    // about to drop h's reference on its parent
    | Reclaim(dead: seq<nat>)                // about to free() the structures of dead

  datatype State = State(objs: seq<Obj>, threads: seq<Pc>, failed: bool)

  /** What a thread does next: begin a call, or advance the one it is in.  `refuse` resolves
      what the model leaves open: calloc returning NULL, and conn_free's checks for active
      executions, a live connection and outstanding statements. */
  datatype Action = NewEnv | StartAlloc(h: nat) | StartFree(h: nat) | StartUse(h: nat) | Go(refuse: bool)

  function ChildKind(kind: Kind): Kind
    requires kind != Desc
  {
    if kind == Env then Conn else Desc
  }

  predicate Accessible(s: State, h: nat) {
    h < |s.objs| && s.objs[h].life != Freed
  }

  function SetPc(s: State, t: nat, pc: Pc): State
    requires t < |s.threads|
  {
    s.(threads := s.threads[t := pc])
  }

  function SetObj(s: State, h: nat, o: Obj): State
    requires h < |s.objs|
  {
    s.(objs := s.objs[h := o])
  }

  /** xxx_ref: atomic add, then the assertion prev > 0. */
  function Ref(s: State, h: nat): State {
    if !Accessible(s, h) || s.objs[h].refc <= 0 then s.(failed := true)
    else SetObj(s, h, s.objs[h].(refc := s.objs[h].refc + 1))
  }

  /** xxx_unref: atomic subtract; the thread that sees prev == 1 starts the release. */
  function Unref(s: State, t: nat, h: nat, dead: seq<nat>): State
    requires t < |s.threads|
  {
    if !Accessible(s, h) || s.objs[h].refc < 1 then s.(failed := true)
    else
      var o := s.objs[h];
      if o.refc > 1 then SetPc(SetObj(s, h, o.(refc := o.refc - 1)), t, if dead == [] then Idle else Reclaim(dead))
      else SetPc(SetObj(s, h, o.(refc := 0, life := Uncounting, releaser := t)), t, Uncount(h, dead + [h]))
  }

  /** The client's part of the contract: a call starts on a handle whose application
      reference has not been dropped, and at most one free call per handle succeeds. */
  predicate Enabled(s: State, t: nat, a: Action) {
    && !s.failed && t < |s.threads|
    && match a
       case NewEnv => s.threads[t] == Idle
       case StartAlloc(h) => s.threads[t] == Idle && h < |s.objs| && s.objs[h].open && s.objs[h].kind != Desc
       case StartFree(h) => s.threads[t] == Idle && h < |s.objs| && s.objs[h].open
       case StartUse(h) => s.threads[t] == Idle && h < |s.objs| && s.objs[h].open
       case Go(refuse) =>
         s.threads[t] != Idle &&
         (s.threads[t].FreeCheck? && Passes(s, s.threads[t].h, refuse) ==> !s.objs[s.threads[t].h].claimed)
  }

  /** The checks of env_free and conn_free; desc_free has none. */
  predicate Passes(s: State, h: nat, refuse: bool) {
    Accessible(s, h) && (s.objs[h].kind == Desc || s.objs[h].kids == 0) && (s.objs[h].kind == Conn ==> !refuse)
  }

  function Apply(s: State, t: nat, a: Action): State
    requires Enabled(s, t, a)
  {
    match a
    case NewEnv => s.(objs := s.objs + [Obj(Env, 0, 1, 0, Live, true, false, 0)])
    case StartAlloc(h) => SetPc(Ref(s, h), t, AllocCreate(h))
    case StartFree(h) => SetPc(Ref(s, h), t, FreeCheck(h))
    case StartUse(h) => SetPc(Ref(s, h), t, EndUnref(h))
    case Go(refuse) => Advance(s, t, refuse)
  }

  function Advance(s: State, t: nat, refuse: bool): State
    requires Enabled(s, t, Go(refuse))
  {
    match s.threads[t]
    case AllocCreate(h) => SetPc(s, t, if refuse then EndUnref(h) else AllocParentRef(h))
    case AllocParentRef(h) => SetPc(Ref(s, h), t, AllocCount(h))
    case AllocCount(h) =>
      if !Accessible(s, h) || s.objs[h].kids < 0 then s.(failed := true)
      else SetPc(SetObj(s, h, s.objs[h].(kids := s.objs[h].kids + 1)), t, AllocPublish(h))
    case AllocPublish(h) =>
      if !Accessible(s, h) || s.objs[h].kind == Desc then s.(failed := true)
      else
        SetPc(s.(objs := s.objs + [Obj(ChildKind(s.objs[h].kind), h, 1, 0, Live, true, false, 0)]), t, EndUnref(h))
    case FreeCheck(h) =>
      if !Accessible(s, h) then s.(failed := true)
      else if Passes(s, h, refuse) then SetPc(SetObj(s, h, s.objs[h].(claimed := true)), t, FreeDrop(h))
      else SetPc(s, t, EndUnref(h))
    case FreeDrop(h) =>
      // the bracket reference must keep this one from being the last
      if !Accessible(s, h) || s.objs[h].refc <= 1 then s.(failed := true)
      else SetPc(SetObj(s, h, s.objs[h].(refc := s.objs[h].refc - 1, open := false)), t, EndUnref(h))
    case EndUnref(h) => Unref(s, t, h, [])
    case Uncount(h, dead) =>
      if !Accessible(s, h) then s.(failed := true)
      else if s.objs[h].kind == Env then
        if s.objs[h].kids != 0 then s.(failed := true)
        else SetPc(SetObj(s, h, s.objs[h].(life := Released)), t, Reclaim(dead))
      else
        var p := s.objs[h].parent;
        if !Accessible(s, p) || s.objs[p].kids < 1 || p == h then s.(failed := true)
        else
          var s1 := SetObj(s, h, s.objs[h].(life := Unreffing));
          SetPc(SetObj(s1, p, s1.objs[p].(kids := s1.objs[p].kids - 1)), t, UnrefParent(h, dead))
    case UnrefParent(h, dead) =>
      if !Accessible(s, h) then s.(failed := true)
      else Unref(SetObj(s, h, s.objs[h].(life := Released)), t, s.objs[h].parent, dead)
    case Reclaim(dead) =>
      if dead == [] || !Accessible(s, dead[|dead| - 1]) then s.(failed := true)
      else
        var h := dead[|dead| - 1];
        SetPc(SetObj(s, h, s.objs[h].(life := Freed)), t, if |dead| == 1 then Idle else Reclaim(dead[..|dead| - 1]))
  }

  // ---------------------------------------------------------------- accounting

  /** The references on x that a thread holds. */
  function Refs(x: nat): Pc -> nat {
    (pc: Pc) =>
      match pc
      case AllocCreate(h) => if h == x then 1 else 0
      case AllocParentRef(h) => if h == x then 1 else 0
      case AllocCount(h) => if h == x then 2 else 0
      case AllocPublish(h) => if h == x then 2 else 0
      case FreeCheck(h) => if h == x then 1 else 0
      case FreeDrop(h) => if h == x then 1 else 0
      case EndUnref(h) => if h == x then 1 else 0
      case _ => 0
  }

  /** A thread that has counted a child in x and not handed it out yet. */
  function Counts(x: nat): Pc -> nat {
    (pc: Pc) => if pc == AllocPublish(x) then 1 else 0
  }

  function Drops(x: nat): Pc -> nat {
    (pc: Pc) => if pc == FreeDrop(x) then 1 else 0
  }

  /** The reference on x that a child owns until its release drops it. */
  function ChildRefs(x: nat): Obj -> nat {
    (o: Obj) => if OwnsParent(o) && o.parent == x then 1 else 0
  }

  /** The child's place in x's counter. */
  function ChildCounts(x: nat): Obj -> nat {
    (o: Obj) => if OwnsParent(o) && o.life != Unreffing && o.parent == x then 1 else 0
  }

  predicate OwnsParent(o: Obj) {
    o.kind != Env && (o.life == Live || o.life == Uncounting || o.life == Unreffing)
  }

  function Dead(pc: Pc): seq<nat> {
    match pc
    case Uncount(_, dead) => dead
    case UnrefParent(_, dead) => dead
    case Reclaim(dead) => dead
    case _ => []
  }

  ghost predicate Inv(s: State) {
    && !s.failed
    && (forall x :: 0 <= x < |s.objs| ==> ObjInv(s, x))
    && (forall t :: 0 <= t < |s.threads| ==> PcInv(s, t))
  }

  ghost predicate ObjInv(s: State, x: nat)
    requires x < |s.objs|
  {
    Placed(s.objs, x) && Accounted(s, x) && Managed(s, x)
  }

  /** The parent exists, is older, and is of the kind that has such children. */
  ghost predicate Placed(objs: seq<Obj>, x: nat)
    requires x < |objs|
  {
    var o := objs[x];
    o.kind != Env ==> o.parent < x && objs[o.parent].kind != Desc && o.kind == ChildKind(objs[o.parent].kind)
  }

  /** The atomics are exactly the references and child places that exist. */
  ghost predicate Accounted(s: State, x: nat)
    requires x < |s.objs|
  {
    var o := s.objs[x];
    && o.refc == Bit(o.open) + Total(s.threads, Refs(x)) + Total(s.objs, ChildRefs(x))
    && o.kids == Total(s.threads, Counts(x)) + Total(s.objs, ChildCounts(x))
    && Total(s.threads, Drops(x)) == Bit(o.claimed && o.open)
  }

  /** Live exactly while referenced; a release in progress belongs to one thread. */
  ghost predicate Managed(s: State, x: nat)
    requires x < |s.objs|
  {
    var o := s.objs[x];
    && (o.claimed || o.open)
    && (o.refc > 0 <==> o.life == Live)
    && (InRelease(o) ==> o.releaser < |s.threads| && x in Dead(s.threads[o.releaser]))
  }

  predicate InRelease(o: Obj) {
    o.life != Live && o.life != Freed
  }

  function Bit(b: bool): nat {
    if b then 1 else 0
  }

  ghost predicate PcInv(s: State, t: nat)
    requires t < |s.threads|
  {
    var dead := Dead(s.threads[t]);
    && (forall i :: 0 <= i < |dead| ==> dead[i] < |s.objs| && s.objs[dead[i]].releaser == t)
    && (forall i, j :: 0 <= i < j < |dead| ==> dead[i] != dead[j])
    && match s.threads[t]
       case Idle => true
       case Uncount(h, _) => dead != [] && dead[|dead| - 1] == h && s.objs[h].life == Uncounting && ReleasedBut(s, dead)
       case UnrefParent(h, _) =>
         dead != [] && dead[|dead| - 1] == h && s.objs[h].life == Unreffing && s.objs[h].kind != Env
           && ReleasedBut(s, dead)
       case Reclaim(_) => dead != [] && ReleasedBut(s, dead) && s.objs[dead[|dead| - 1]].life == Released
       case pc =>
         && pc.h < |s.objs|
         && (pc.AllocCreate? || pc.AllocParentRef? || pc.AllocCount? || pc.AllocPublish? ==> s.objs[pc.h].kind != Desc)
  }

  /** All of dead but its last element have left their parents. */
  ghost predicate ReleasedBut(s: State, dead: seq<nat>)
    requires forall i :: 0 <= i < |dead| ==> dead[i] < |s.objs|
  {
    forall i :: 0 <= i < |dead| - 1 ==> s.objs[dead[i]].life == Released
  }

  // ---------------------------------------------------------------- one step keeps the accounting

  /** Moving thread t to pc changes each tally by what t held before and holds now. */
  lemma ThreadTally(ts: seq<Pc>, t: nat, pc: Pc, x: nat)
    requires t < |ts|
    ensures Total(ts[t := pc], Refs(x)) + Refs(x)(ts[t]) == Total(ts, Refs(x)) + Refs(x)(pc)
    ensures Total(ts[t := pc], Counts(x)) + Counts(x)(ts[t]) == Total(ts, Counts(x)) + Counts(x)(pc)
    ensures Total(ts[t := pc], Drops(x)) + Drops(x)(ts[t]) == Total(ts, Drops(x)) + Drops(x)(pc)
  {
    TotalUpdate(ts, t, pc, Refs(x));
    TotalUpdate(ts, t, pc, Counts(x));
    TotalUpdate(ts, t, pc, Drops(x));
  }

  lemma ObjTally(objs: seq<Obj>, h: nat, o: Obj, x: nat)
    requires h < |objs|
    ensures Total(objs[h := o], ChildRefs(x)) + ChildRefs(x)(objs[h]) == Total(objs, ChildRefs(x)) + ChildRefs(x)(o)
    ensures Total(objs[h := o], ChildCounts(x)) + ChildCounts(x)(objs[h])
      == Total(objs, ChildCounts(x)) + ChildCounts(x)(o)
  {
    TotalUpdate(objs, h, o, ChildRefs(x));
    TotalUpdate(objs, h, o, ChildCounts(x));
  }

  lemma NewObjTally(objs: seq<Obj>, o: Obj, x: nat)
    ensures Total(objs + [o], ChildRefs(x)) == Total(objs, ChildRefs(x)) + ChildRefs(x)(o)
    ensures Total(objs + [o], ChildCounts(x)) == Total(objs, ChildCounts(x)) + ChildCounts(x)(o)
  {
    assert (objs + [o])[..|objs|] == objs;
  }

  /** No thread and no child refers to a structure that does not exist yet. */
  lemma FreshTally(s: State)
    requires Inv(s)
    ensures var x := |s.objs|;
      Total(s.threads, Refs(x)) == Total(s.threads, Counts(x)) == Total(s.threads, Drops(x)) == 0
    ensures var x := |s.objs|; Total(s.objs, ChildRefs(x)) == Total(s.objs, ChildCounts(x)) == 0
  {
    var x := |s.objs|;
    forall t | 0 <= t < |s.threads|
      ensures Refs(x)(s.threads[t]) == Counts(x)(s.threads[t]) == Drops(x)(s.threads[t]) == 0
    {
      assert PcInv(s, t);
    }
    forall y | 0 <= y < |s.objs| ensures ChildRefs(x)(s.objs[y]) == ChildCounts(x)(s.objs[y]) == 0 {
      assert ObjInv(s, y);
    }
    TotalZero(s.threads, Refs(x));
    TotalZero(s.threads, Counts(x));
    TotalZero(s.threads, Drops(x));
    TotalZero(s.objs, ChildRefs(x));
    TotalZero(s.objs, ChildCounts(x));
  }

  /** A structure on which a thread holds a reference is live. */
  lemma HeldLive(s: State, t: nat, h: nat)
    requires Inv(s) && t < |s.threads| && h < |s.objs| && Refs(h)(s.threads[t]) > 0
    ensures s.objs[h].life == Live && s.objs[h].refc >= Refs(h)(s.threads[t]) + Bit(s.objs[h].open)
  {
    assert ObjInv(s, h);
    TotalAtLeast(s.threads, t, Refs(h));
  }

  /** A parent outlives its children: it is live until the child's release lets go of it. */
  lemma ParentLive(s: State, c: nat)
    requires Inv(s) && c < |s.objs| && OwnsParent(s.objs[c])
    ensures var p := s.objs[c].parent;
            p < c && s.objs[p].life == Live && s.objs[p].refc >= 1
              && (s.objs[c].life != Unreffing ==> s.objs[p].kids >= 1)
  {
    assert ObjInv(s, c);
    var p := s.objs[c].parent;
    assert ObjInv(s, p);
    TotalAtLeast(s.objs, c, ChildRefs(p));
    TotalAtLeast(s.objs, c, ChildCounts(p));
  }

  /** Threads other than t keep their invariant when only live structures, or structures t
      itself is releasing, change. */
  lemma OtherThreads(s: State, s': State, t: nat)
    requires Inv(s) && t < |s.threads| && |s'.threads| == |s.threads| && |s'.objs| >= |s.objs|
    requires forall u :: 0 <= u < |s.threads| && u != t ==> s'.threads[u] == s.threads[u]
    requires forall x :: 0 <= x < |s.objs| ==>
               s'.objs[x].kind == s.objs[x].kind &&
               (s.objs[x].life == Live || s.objs[x].releaser == t ||
                (s'.objs[x].life == s.objs[x].life && s'.objs[x].releaser == s.objs[x].releaser))
    ensures forall u :: 0 <= u < |s.threads| && u != t ==> PcInv(s', u)
  {
    forall u | 0 <= u < |s.threads| && u != t ensures PcInv(s', u) {
      assert PcInv(s, u);
      var dead := Dead(s.threads[u]);
      forall i | 0 <= i < |dead|
        ensures s'.objs[dead[i]].life == s.objs[dead[i]].life && s'.objs[dead[i]].releaser == u
      {
        assert s.objs[dead[i]].life != Live;
      }
    }
  }

  predicate SamePlace(o: Obj, o': Obj) {
    o'.kind == o.kind && o'.parent == o.parent
  }

  /** The state after thread t moves to pc, structure h becomes o and structure p becomes q. */
  function After(s: State, t: nat, pc: Pc, h: nat, o: Obj, p: nat, q: Obj): State
    requires t < |s.threads| && h < |s.objs| && p < |s.objs|
  {
    SetPc(SetObj(SetObj(s, h, o), p, q), t, pc)
  }

  /** The accounting of one structure x across a step, from the differences the step makes. */
  lemma ObjAfter(s: State, t: nat, pc: Pc, h: nat, o: Obj, p: nat, q: Obj, x: nat)
    requires t < |s.threads| && h < |s.objs| && p < |s.objs| && x < |s.objs| && ObjInv(s, x)
    requires SamePlace(s.objs[h], o) && SamePlace(s.objs[p], q)
    requires var m := s.objs[h := o];
             ChildRefs(x)(q) == ChildRefs(x)(m[p]) && ChildCounts(x)(q) == ChildCounts(x)(m[p])
    requires Balanced(s.objs[x], s.objs[h := o][p := q][x], s.threads[t], pc, s.objs[h], o, x)
    requires Managed(After(s, t, pc, h, o, p, q), x)
    ensures ObjInv(After(s, t, pc, h, o, p, q), x)
  {
    var s' := After(s, t, pc, h, o, p, q);
    assert Placed(s'.objs, x) by {
      assert forall y :: 0 <= y < |s.objs| ==> SamePlace(s.objs[y], s'.objs[y]);
    }
    assert Accounted(s', x) by {
      ThreadTally(s.threads, t, pc, x);
      ObjTally(s.objs, h, o, x);
      ObjTally(s.objs[h := o], p, q, x);
    }
  }

  /** The step changes x's atomics from old_ to new_ by as much as the stepping thread (pc0 to
      pc) and the structure h (h0 to h1) change what they hold on x. */
  ghost predicate Balanced(old_: Obj, new_: Obj, pc0: Pc, pc: Pc, h0: Obj, h1: Obj, x: nat) {
    && new_.refc + Bit(old_.open) + Refs(x)(pc0) + ChildRefs(x)(h0)
      == old_.refc + Bit(new_.open) + Refs(x)(pc) + ChildRefs(x)(h1)
    && new_.kids + Counts(x)(pc0) + ChildCounts(x)(h0) == old_.kids + Counts(x)(pc) + ChildCounts(x)(h1)
    && Bit(new_.claimed && new_.open) + Drops(x)(pc0) == Bit(old_.claimed && old_.open) + Drops(x)(pc)
  }

  /** Taking a reference on h for thread t, which then stands at pc. */
  lemma RefStep(s: State, t: nat, h: nat, pc: Pc)
    requires Inv(s) && t < |s.threads| && h < |s.objs| && s.objs[h].life == Live
    requires RefChange(s.threads[t], h, pc)
    requires pc.AllocCreate? || pc.AllocCount? ==> s.objs[h].kind != Desc
    ensures Inv(SetPc(Ref(s, h), t, pc))
  {
    hide Accounted, Placed;
    assert ObjInv(s, h);
    var o := s.objs[h].(refc := s.objs[h].refc + 1);
    var s' := After(s, t, pc, h, o, h, o);
    assert s' == SetPc(Ref(s, h), t, pc);
    OtherThreads(s, s', t);
    forall x | 0 <= x < |s.objs| ensures ObjInv(s', x) {
      assert ObjInv(s, x);
      RefObj(s, t, pc, h, o, x);
    }
  }

  ghost predicate RefChange(pc0: Pc, h: nat, pc: Pc) {
    if pc0 == Idle then pc == AllocCreate(h) || pc == FreeCheck(h) || pc == EndUnref(h)
    else pc0 == AllocParentRef(h) && pc == AllocCount(h)
  }

  lemma RefObj(s: State, t: nat, pc: Pc, h: nat, o: Obj, x: nat)
    requires t < |s.threads| && h < |s.objs| && x < |s.objs| && ObjInv(s, x)
    requires RefChange(s.threads[t], h, pc) && s.objs[h].life == Live && s.objs[h].refc > 0
    requires o == s.objs[h].(refc := s.objs[h].refc + 1)
    ensures ObjInv(After(s, t, pc, h, o, h, o), x)
  {
    ObjAfter(s, t, pc, h, o, h, o, x);
  }

  /** Moving on without touching shared memory. */
  lemma LocalStep(s: State, t: nat, pc: Pc)
    requires Inv(s) && t < |s.threads| && (s.threads[t].AllocCreate? || s.threads[t].FreeCheck?)
    requires pc == EndUnref(s.threads[t].h) || (pc == AllocParentRef(s.threads[t].h) && s.threads[t].AllocCreate?)
    ensures Inv(SetPc(s, t, pc))
  {
    hide Accounted, Placed;
    assert PcInv(s, t);
    var o := s.objs[pc.h];
    var s' := After(s, t, pc, pc.h, o, pc.h, o);
    assert s' == SetPc(s, t, pc);
    OtherThreads(s, s', t);
    forall x | 0 <= x < |s.objs| ensures ObjInv(s', x) {
      assert ObjInv(s, x);
      ObjAfter(s, t, pc, pc.h, o, pc.h, o, x);
    }
  }

  /** The three steps that change counters or marks of one live structure: counting a child,
      claiming a free, dropping the application's reference. */
  ghost predicate LiveChange(pc0: Pc, old_: Obj, pc: Pc, o: Obj) {
    match pc0
    case AllocCount(h) => pc == AllocPublish(h) && o == old_.(kids := old_.kids + 1)
    case FreeCheck(h) => !old_.claimed && pc == FreeDrop(h) && o == old_.(claimed := true)
    case FreeDrop(h) => pc == EndUnref(h) && o == old_.(refc := old_.refc - 1, open := false)
    case _ => false
  }

  lemma LiveObj(s: State, t: nat, pc: Pc, h: nat, o: Obj, x: nat)
    requires t < |s.threads| && h < |s.objs| && x < |s.objs| && ObjInv(s, x)
    requires LiveChange(s.threads[t], s.objs[h], pc, o) && s.threads[t].h == h
    requires s.objs[h].life == Live
    requires s.threads[t].FreeDrop? ==> s.objs[h].refc > 1 && s.objs[h].open && s.objs[h].claimed
    requires s.objs[h].claimed || s.objs[h].open
    requires x != h && InRelease(s.objs[x]) ==> s.objs[x].releaser != t
    ensures ObjInv(After(s, t, pc, h, o, h, o), x)
  {
    ObjAfter(s, t, pc, h, o, h, o, x);
  }

  lemma LiveStep(s: State, t: nat, pc: Pc, o: Obj)
    requires Inv(s) && t < |s.threads|
    requires s.threads[t].AllocCount? || s.threads[t].FreeCheck? || s.threads[t].FreeDrop?
    requires PcInv(s, t) && LiveChange(s.threads[t], s.objs[s.threads[t].h], pc, o)
    ensures Inv(SetPc(SetObj(s, s.threads[t].h, o), t, pc))
  {
    var h := s.threads[t].h;
    HeldLive(s, t, h);
    var s' := After(s, t, pc, h, o, h, o);
    assert s' == SetPc(SetObj(s, h, o), t, pc);
    OtherThreads(s, s', t);
    assert ObjInv(s, h);
    TotalAtLeast(s.threads, t, Drops(h));
    forall x | 0 <= x < |s.objs| ensures ObjInv(s', x) {
      assert ObjInv(s, x);
      LiveObj(s, t, pc, h, o, x);
    }
  }

  /** Dropping the bracket reference, possibly the last one. */
  lemma EndUnrefStep(s: State, t: nat)
    requires Inv(s) && t < |s.threads| && s.threads[t].EndUnref?
    ensures Inv(Unref(s, t, s.threads[t].h, []))
  {
    hide Accounted, Managed, Placed;
    var h := s.threads[t].h;
    assert PcInv(s, t);
    HeldLive(s, t, h);
    var last := s.objs[h].refc == 1;
    var o := if last then s.objs[h].(refc := 0, life := Uncounting, releaser := t)
      else s.objs[h].(refc := s.objs[h].refc - 1);
    var pc := if last then Uncount(h, [h]) else Idle;
    var s' := After(s, t, pc, h, o, h, o);
    assert s' == Unref(s, t, h, []) by {
      assert [] + [h] == [h];
    }
    OtherThreads(s, s', t);
    forall x | 0 <= x < |s.objs| ensures ObjInv(s', x) {
      assert ObjInv(s, x);
      EndUnrefObj(s, t, pc, h, o, x);
    }
    EndUnrefPc(s', t, h);
  }

  lemma EndUnrefPc(s: State, t: nat, h: nat)
    requires t < |s.threads| && h < |s.objs|
    requires s.threads[t] == Idle
      || (s.threads[t] == Uncount(h, [h]) && s.objs[h].life == Uncounting && s.objs[h].releaser == t)
    ensures PcInv(s, t)
  {
  }

  lemma EndUnrefObj(s: State, t: nat, pc: Pc, h: nat, o: Obj, x: nat)
    requires t < |s.threads| && h < |s.objs| && x < |s.objs| && ObjInv(s, x)
    requires s.threads[t] == EndUnref(h) && s.objs[h].life == Live && s.objs[h].refc >= 1
    requires if s.objs[h].refc == 1
             then pc == Uncount(h, [h]) && o == s.objs[h].(refc := 0, life := Uncounting, releaser := t) && !o.open
             else pc == Idle && o == s.objs[h].(refc := s.objs[h].refc - 1)
    ensures ObjInv(After(s, t, pc, h, o, h, o), x)
  {
    ObjAfter(s, t, pc, h, o, h, o, x);
  }

  /** The release of a child leaves its parent's counter. */
  lemma UncountChildStep(s: State, t: nat)
    requires Inv(s) && t < |s.threads| && s.threads[t].Uncount? && s.threads[t].h < |s.objs|
      && s.objs[s.threads[t].h].kind != Env
    ensures Enabled(s, t, Go(false)) && Inv(Advance(s, t, false))
  {
    hide Accounted, Managed, Placed;
    var Uncount(h, dead) := s.threads[t];
    assert PcInv(s, t);
    ParentLive(s, h);
    var p := s.objs[h].parent;
    var o := s.objs[h].(life := Unreffing);
    var q := s.objs[p].(kids := s.objs[p].kids - 1);
    var pc := UnrefParent(h, dead);
    var s' := After(s, t, pc, h, o, p, q);
    assert s' == Advance(s, t, false);
    OtherThreads(s, s', t);
    forall x | 0 <= x < |s.objs| ensures ObjInv(s', x) {
      assert ObjInv(s, x);
      UncountObj(s, t, pc, h, o, p, q, x);
    }
    assert PcInv(s', t);
  }

  lemma UncountObj(s: State, t: nat, pc: Pc, h: nat, o: Obj, p: nat, q: Obj, x: nat)
    requires t < |s.threads| && h < |s.objs| && p < h && x < |s.objs| && ObjInv(s, x)
    requires s.threads[t].Uncount? && pc.UnrefParent? && pc.dead == s.threads[t].dead && s.objs[h].kind != Env
      && s.objs[h].parent == p
    requires s.objs[h].life == Uncounting && o == s.objs[h].(life := Unreffing)
    requires s.objs[p].life == Live && q == s.objs[p].(kids := s.objs[p].kids - 1)
    ensures ObjInv(After(s, t, pc, h, o, p, q), x)
  {
    ObjAfter(s, t, pc, h, o, p, q, x);
  }

  /** The release of a child drops its reference on the parent, possibly the last one. */
  /** When a child's reference is the last one, the application has dropped its own. */
  lemma LastIsNotOpen(s: State, h: nat)
    requires Inv(s) && h < |s.objs| && OwnsParent(s.objs[h]) && s.objs[h].parent < |s.objs|
    ensures s.objs[s.objs[h].parent].refc == 1 ==> !s.objs[s.objs[h].parent].open
  {
    var p := s.objs[h].parent;
    assert ObjInv(s, p);
    TotalAtLeast(s.objs, h, ChildRefs(p));
  }

  lemma UnrefParentStep(s: State, t: nat)
    requires Inv(s) && t < |s.threads| && s.threads[t].UnrefParent?
    ensures Enabled(s, t, Go(false)) && Inv(Advance(s, t, false))
  {
    hide Accounted, Placed;
    var UnrefParent(h, dead) := s.threads[t];
    assert PcInv(s, t);
    ParentLive(s, h);
    LastIsNotOpen(s, h);
    var p := s.objs[h].parent;
    assert ObjInv(s, p);
    var last := s.objs[p].refc == 1;
    var o := s.objs[h].(life := Released);
    var q := if last then s.objs[p].(refc := 0, life := Uncounting, releaser := t)
      else s.objs[p].(refc := s.objs[p].refc - 1);
    var pc := if last then Uncount(p, dead + [p]) else Reclaim(dead);
    var s' := After(s, t, pc, h, o, p, q);
    assert s' == Advance(s, t, false);
    OtherThreads(s, s', t);
    TotalAtLeast(s.objs, h, ChildRefs(p));
    forall x | 0 <= x < |s.objs| ensures ObjInv(s', x) {
      assert ObjInv(s, x);
      UnrefParentObj(s, t, pc, h, o, p, q, x);
    }
    UnrefParentPc(s, s', t);
  }

  /** Where thread t stands after dropping a parent reference. */
  lemma UnrefParentPc(s: State, s': State, t: nat)
    requires t < |s.threads| == |s'.threads| && s.threads[t].UnrefParent? && |s'.objs| == |s.objs| && PcInv(s, t)
    requires var h := s.threads[t].h; s'.objs[h] == s.objs[h].(life := Released)
    requires var dead := s.threads[t].dead;
             if s'.threads[t].Uncount?
             then var p := s'.threads[t].h;
                  p < |s.objs| && s.objs[p].life == Live && s'.threads[t] == Uncount(p, dead + [p]) &&
                  s'.objs[p].life == Uncounting && s'.objs[p].releaser == t
             else s'.threads[t] == Reclaim(dead)
    requires forall x :: 0 <= x < |s.objs| && s.objs[x].life == Released ==> s'.objs[x] == s.objs[x]
    ensures PcInv(s', t)
  {
  }

  lemma UnrefParentObj(s: State, t: nat, pc: Pc, h: nat, o: Obj, p: nat, q: Obj, x: nat)
    requires t < |s.threads| && h < |s.objs| && p < h && x < |s.objs| && ObjInv(s, x)
    requires s.threads[t].UnrefParent? && s.objs[h].kind != Env && s.objs[h].parent == p
    requires s.objs[h].life == Unreffing && o == s.objs[h].(life := Released)
    requires s.objs[p].life == Live
    requires if s.objs[p].refc == 1
             then pc == Uncount(p, s.threads[t].dead + [p])
                  && q == s.objs[p].(refc := 0, life := Uncounting, releaser := t) && !q.open
             else pc == Reclaim(s.threads[t].dead) && q == s.objs[p].(refc := s.objs[p].refc - 1)
    requires s.objs[p].refc >= 1
    ensures ObjInv(After(s, t, pc, h, o, p, q), x)
  {
    ObjAfter(s, t, pc, h, o, p, q, x);
  }

  /** The last part of a release: an environment's assertion that no connection is left, or
      giving one structure's memory back. */
  lemma FinishStep(s: State, t: nat, pc: Pc, h: nat, o: Obj)
    requires Inv(s) && t < |s.threads| && h < |s.objs| && FinishChange(s.threads[t], s.objs[h], h, pc, o)
    ensures Inv(SetPc(SetObj(s, h, o), t, pc))
  {
    assert PcInv(s, t);
    var s' := After(s, t, pc, h, o, h, o);
    assert s' == SetPc(SetObj(s, h, o), t, pc);
    OtherThreads(s, s', t);
    forall x | 0 <= x < |s.objs| ensures ObjInv(s', x) {
      assert ObjInv(s, x);
      FinishObj(s, t, pc, h, o, x);
    }
    assert PcInv(s', t);
  }

  ghost predicate FinishChange(pc0: Pc, old_: Obj, h: nat, pc: Pc, o: Obj) {
    match pc0
    case Uncount(_, dead) =>
      dead != [] && dead[|dead| - 1] == h && old_.kind == Env && old_.life == Uncounting &&
      pc == Reclaim(dead) && o == old_.(life := Released)
    case Reclaim(dead) =>
      dead != [] && dead[|dead| - 1] == h && old_.life == Released &&
      pc == (if |dead| == 1 then Idle else Reclaim(dead[..|dead| - 1])) && o == old_.(life := Freed)
    case _ => false
  }

  lemma FinishObj(s: State, t: nat, pc: Pc, h: nat, o: Obj, x: nat)
    requires t < |s.threads| && h < |s.objs| && x < |s.objs| && ObjInv(s, x)
    requires FinishChange(s.threads[t], s.objs[h], h, pc, o)
    ensures ObjInv(After(s, t, pc, h, o, h, o), x)
  {
    var dead := Dead(s.threads[t]);
    assert forall y :: y in dead && y != h ==> y in dead[..|dead| - 1];
    ObjAfter(s, t, pc, h, o, h, o, x);
  }

  /** A new structure: handed out by an alloc call on h, or an environment. */
  lemma NewObjStep(s: State, t: nat, pc: Pc, o: Obj)
    requires Inv(s) && t < |s.threads| && NewObj(s, t, pc, o)
    ensures Inv(SetPc(s.(objs := s.objs + [o]), t, pc))
  {
    assert PcInv(s, t);
    var s' := SetPc(s.(objs := s.objs + [o]), t, pc);
    OtherThreads(s, s', t);
    forall x | 0 <= x < |s'.objs| ensures ObjInv(s', x) {
      if x < |s.objs| {
        assert ObjInv(s, x);
        OldBesideNew(s, t, pc, o, x);
      } else {
        FreshTally(s);
        NewAccounted(s, t, pc, o);
      }
    }
    assert PcInv(s', t);
  }

  lemma NewAccounted(s: State, t: nat, pc: Pc, o: Obj)
    requires t < |s.threads| && NewObj(s, t, pc, o)
    requires var x := |s.objs|;
      Total(s.threads, Refs(x)) == Total(s.threads, Counts(x)) == Total(s.threads, Drops(x)) == 0
    requires var x := |s.objs|; Total(s.objs, ChildRefs(x)) == Total(s.objs, ChildCounts(x)) == 0
    ensures ObjInv(SetPc(s.(objs := s.objs + [o]), t, pc), |s.objs|)
  {
    var x := |s.objs|;
    var s' := SetPc(s.(objs := s.objs + [o]), t, pc);
    assert s'.objs == s.objs + [o] && s'.threads == s.threads[t := pc] && s'.objs[x] == o;
    assert Accounted(s', x) by {
      assert Refs(x)(pc) == Counts(x)(pc) == Drops(x)(pc) == 0 && ChildRefs(x)(o) == ChildCounts(x)(o) == 0;
      ThreadTally(s.threads, t, pc, x);
      NewObjTally(s.objs, o, x);
    }
  }

  ghost predicate NewObj(s: State, t: nat, pc: Pc, o: Obj)
    requires t < |s.threads|
  {
    && o.refc == 1 && o.kids == 0 && o.life == Live && o.open && !o.claimed
    && (if o.kind == Env then s.threads[t] == Idle && pc == Idle
        else s.threads[t] == AllocPublish(o.parent) && pc == EndUnref(o.parent))
    && Placed(s.objs + [o], |s.objs|)
  }

  lemma OldBesideNew(s: State, t: nat, pc: Pc, o: Obj, x: nat)
    requires t < |s.threads| && x < |s.objs| && ObjInv(s, x) && NewObj(s, t, pc, o)
    ensures ObjInv(SetPc(s.(objs := s.objs + [o]), t, pc), x)
  {
    ThreadTally(s.threads, t, pc, x);
    NewObjTally(s.objs, o, x);
  }

  lemma InitInv(s: State)
    requires Init(s)
    ensures Inv(s)
  {
  }

  ghost predicate Init(s: State) {
    s.objs == [] && !s.failed && forall t :: 0 <= t < |s.threads| ==> s.threads[t] == Idle
  }

  /** Every step of every thread keeps the accounting; in particular no assertion fails and no
      freed structure is touched. */
  lemma StepInv(s: State, t: nat, a: Action)
    requires Inv(s) && Enabled(s, t, a)
    ensures Inv(Apply(s, t, a))
  {
    assert PcInv(s, t);
    match a
    case NewEnv =>
      NewObjStep(s, t, Idle, Obj(Env, 0, 1, 0, Live, true, false, 0));
      assert s.threads[t := Idle] == s.threads;
    case StartAlloc(h) => OpenLive(s, h); RefStep(s, t, h, AllocCreate(h));
    case StartFree(h) => OpenLive(s, h); RefStep(s, t, h, FreeCheck(h));
    case StartUse(h) => OpenLive(s, h); RefStep(s, t, h, EndUnref(h));
    case Go(refuse) =>
      if Dead(s.threads[t]) == [] {
        CallStepInv(s, t, refuse);
      } else {
        ReleaseStepInv(s, t, refuse);
      }
  }

  lemma OpenLive(s: State, h: nat)
    requires Inv(s) && h < |s.objs| && s.objs[h].open
    ensures s.objs[h].life == Live
  {
    assert ObjInv(s, h);
  }

  lemma CallStepInv(s: State, t: nat, refuse: bool)
    requires Inv(s) && Enabled(s, t, Go(refuse)) && Dead(s.threads[t]) == []
    ensures Inv(Advance(s, t, refuse))
  {
    assert PcInv(s, t);
    var h := s.threads[t].h;
    HeldLive(s, t, h);
    assert ObjInv(s, h);
    match s.threads[t]
    case AllocCreate(_) => LocalStep(s, t, if refuse then EndUnref(h) else AllocParentRef(h));
    case AllocParentRef(_) => RefStep(s, t, h, AllocCount(h));
    case AllocCount(_) => LiveStep(s, t, AllocPublish(h), s.objs[h].(kids := s.objs[h].kids + 1));
    case AllocPublish(_) => NewObjStep(s, t, EndUnref(h),
      Obj(ChildKind(s.objs[h].kind), h, 1, 0, Live, true, false, 0));
    case FreeCheck(_) =>
      if Passes(s, h, refuse) {
        LiveStep(s, t, FreeDrop(h), s.objs[h].(claimed := true));
      } else {
        LocalStep(s, t, EndUnref(h));
      }
    case FreeDrop(_) =>
      TotalAtLeast(s.threads, t, Drops(h));
      LiveStep(s, t, EndUnref(h), s.objs[h].(refc := s.objs[h].refc - 1, open := false));
    case EndUnref(_) => EndUnrefStep(s, t);
  }

  lemma ReleaseStepInv(s: State, t: nat, refuse: bool)
    requires Inv(s) && Enabled(s, t, Go(refuse)) && Dead(s.threads[t]) != []
    ensures Inv(Advance(s, t, refuse))
  {
    assert PcInv(s, t);
    match s.threads[t]
    case Uncount(h, _) =>
      if s.objs[h].kind == Env {
        FinishAdvance(s, t);
      } else {
        UncountChildStep(s, t);
      }
    case UnrefParent(_, _) => UnrefParentStep(s, t);
    case Reclaim(_) => FinishAdvance(s, t);
  }

  lemma FinishAdvance(s: State, t: nat)
    requires Inv(s) && Enabled(s, t, Go(false))
    requires s.threads[t].Reclaim? ||
             (s.threads[t].Uncount? && s.threads[t].h < |s.objs| && s.objs[s.threads[t].h].kind == Env)
    ensures Inv(Advance(s, t, false))
  {
    assert PcInv(s, t);
    var dead := Dead(s.threads[t]);
    var h := dead[|dead| - 1];
    if s.threads[t].Uncount? {
      NoReferencesNoKids(s, h);
      FinishStep(s, t, Reclaim(dead), h, s.objs[h].(life := Released));
    } else {
      FinishStep(s, t, if |dead| == 1 then Idle else Reclaim(dead[..|dead| - 1]), h, s.objs[h].(life := Freed));
    }
  }

  /** A structure nobody references has no children either: the assertion in the release of an
      environment. */
  lemma NoReferencesNoKids(s: State, x: nat)
    requires Inv(s) && x < |s.objs| && s.objs[x].life != Live
    ensures s.objs[x].kids == 0
  {
    assert ObjInv(s, x);
    if Total(s.threads, Counts(x)) > 0 {
      var t := TotalWitness(s.threads, Counts(x));
      TotalAtLeast(s.threads, t, Refs(x));
    }
    if Total(s.objs, ChildCounts(x)) > 0 {
      var c := TotalWitness(s.objs, ChildCounts(x));
      TotalAtLeast(s.objs, c, ChildRefs(x));
    }
  }

  // ---------------------------------------------------------------- whole runs

  datatype Move = Move(thread: nat, action: Action)

  /** The states a schedule passes through, as long as every step keeps to the client's rules. */
  ghost predicate Run(tr: seq<State>, sched: seq<Move>) {
    |tr| == |sched| + 1 && Init(tr[0]) &&
    forall i :: 0 <= i < |sched| ==>
      Enabled(tr[i], sched[i].thread, sched[i].action) && tr[i + 1] == Apply(tr[i], sched[i].thread, sched[i].action)
  }

  lemma {:induction false} RunInv(tr: seq<State>, sched: seq<Move>, i: nat)
    requires Run(tr, sched) && i < |tr|
    ensures Inv(tr[i])
  {
    if i == 0 {
      InitInv(tr[0]);
    } else {
      RunInv(tr, sched, i - 1);
      StepInv(tr[i - 1], sched[i - 1].thread, sched[i - 1].action);
    }
  }

  /** In every interleaving: no reference-count or child-count assertion fails and no freed
      structure is accessed; a child that has not let go of its parent has a live parent; and
      the application's open handles are live. */
  lemma Safety(tr: seq<State>, sched: seq<Move>, i: nat)
    requires Run(tr, sched) && i < |tr|
    ensures !tr[i].failed
    ensures forall c :: 0 <= c < |tr[i].objs| && OwnsParent(tr[i].objs[c]) ==>
              tr[i].objs[c].parent < c && tr[i].objs[tr[i].objs[c].parent].life == Live
    ensures forall h :: 0 <= h < |tr[i].objs| && tr[i].objs[h].open ==> tr[i].objs[h].life == Live
  {
    RunInv(tr, sched, i);
    forall c | 0 <= c < |tr[i].objs| && OwnsParent(tr[i].objs[c])
      ensures tr[i].objs[c].parent < c && tr[i].objs[tr[i].objs[c].parent].life == Live
    {
      ParentLive(tr[i], c);
    }
    forall h | 0 <= h < |tr[i].objs| && tr[i].objs[h].open ensures tr[i].objs[h].life == Live {
      OpenLive(tr[i], h);
    }
  }

  function Age(life: Life): nat {
    match life
    case Live => 0
    case Uncounting => 1
    case Unreffing => 2
    case Released => 3
    case Freed => 4
  }

  /** A release only moves forward, and nothing changes about a freed structure: each structure
      is released, and its memory given back, at most once. */
  lemma StepAges(s: State, t: nat, a: Action, x: nat)
    requires Inv(s) && Enabled(s, t, a) && x < |s.objs|
    ensures var s' := Apply(s, t, a);
            x < |s'.objs| && Age(s'.objs[x].life) >= Age(s.objs[x].life) &&
            (s.objs[x].life == Freed ==> s'.objs[x] == s.objs[x])
  {
    hide Accounted, Placed, ReleasedBut;
    assert PcInv(s, t) && ObjInv(s, x);
    if a.Go? && s.threads[t].UnrefParent? {
      ParentLive(s, s.threads[t].h);
    }
  }

  lemma {:induction false} ReleasedOnce(tr: seq<State>, sched: seq<Move>, i: nat, j: nat, x: nat)
    requires Run(tr, sched) && i <= j < |tr| && x < |tr[i].objs|
    ensures x < |tr[j].objs| && Age(tr[j].objs[x].life) >= Age(tr[i].objs[x].life)
    ensures tr[i].objs[x].life == Freed ==> tr[j].objs[x] == tr[i].objs[x]
  {
    if i < j {
      ReleasedOnce(tr, sched, i, j - 1, x);
      RunInv(tr, sched, j - 1);
      StepAges(tr[j - 1], sched[j - 1].thread, sched[j - 1].action, x);
    }
  }

  /** Nothing leaks: whenever no call is in progress and the application has freed all its
      handles, every structure ever created has been given back. */
  lemma NoLeak(tr: seq<State>, sched: seq<Move>, i: nat, x: nat)
    requires Run(tr, sched) && i < |tr| && x < |tr[i].objs|
    requires forall t :: 0 <= t < |tr[i].threads| ==> tr[i].threads[t] == Idle
    requires forall h :: 0 <= h < |tr[i].objs| ==> !tr[i].objs[h].open
    ensures tr[i].objs[x].life == Freed
  {
    RunInv(tr, sched, i);
    QuietFreed(tr[i], x);
  }

  lemma {:induction false} QuietFreed(s: State, x: nat)
    requires Inv(s) && x < |s.objs|
    requires forall t :: 0 <= t < |s.threads| ==> s.threads[t] == Idle
    requires forall h :: 0 <= h < |s.objs| ==> !s.objs[h].open
    ensures s.objs[x].life == Freed
    decreases |s.objs| - x
  {
    assert ObjInv(s, x);
    TotalZero(s.threads, Refs(x));
    forall c | 0 <= c < |s.objs| ensures ChildRefs(x)(s.objs[c]) == 0 {
      assert ObjInv(s, c);
      if c > x {
        QuietFreed(s, c);
      }
    }
    TotalZero(s.objs, ChildRefs(x));
  }

  // ---------------------------------------------------------------- what a free or an alloc does

  /** o is a connection or a descriptor of h whose release has not left h's counter yet. */
  predicate IsChild(o: Obj, h: nat) {
    o.parent == h && o.kind != Env && o.life in {Live, Uncounting}
  }

  /** Some structure still counts as a child of h, or a thread is about to hand one out. */
  ghost predicate HasChild(s: State, h: nat) {
    || (exists c :: 0 <= c < |s.objs| && IsChild(s.objs[c], h))
    || (exists u :: 0 <= u < |s.threads| && s.threads[u] == AllocPublish(h))
  }

  lemma KidsAreChildren(s: State, h: nat)
    requires Inv(s) && h < |s.objs|
    ensures s.objs[h].kids > 0 <==> HasChild(s, h)
  {
    assert ObjInv(s, h);
    if exists c :: 0 <= c < |s.objs| && IsChild(s.objs[c], h) {
      var c :| 0 <= c < |s.objs| && IsChild(s.objs[c], h);
      TotalAtLeast(s.objs, c, ChildCounts(h));
    }
    if exists u :: 0 <= u < |s.threads| && s.threads[u] == AllocPublish(h) {
      var u :| 0 <= u < |s.threads| && s.threads[u] == AllocPublish(h);
      TotalAtLeast(s.threads, u, Counts(h));
    }
    if Total(s.objs, ChildCounts(h)) > 0 {
      var c := TotalWitness(s.objs, ChildCounts(h));
    }
    if Total(s.threads, Counts(h)) > 0 {
      var u := TotalWitness(s.threads, Counts(h));
    }
  }

  /** A free call that reaches its check goes through exactly when the handle has no child left and, for
      a connection, nothing else keeps it; a descriptor always goes through.  Otherwise the call ends
      and no structure changes. */
  lemma FreeDecides(s: State, t: nat, h: nat, refuse: bool)
    requires Inv(s) && t < |s.threads| && s.threads[t] == FreeCheck(h) && Enabled(s, t, Go(refuse))
    ensures h < |s.objs| && s.objs[h].life == Live
    ensures var goes := match s.objs[h].kind
                        case Env => !HasChild(s, h)
                        case Conn => !HasChild(s, h) && !refuse
                        case Desc => true;
      Advance(s, t, refuse) ==
      if goes then s.(objs := s.objs[h := s.objs[h].(claimed := true)], threads := s.threads[t := FreeDrop(h)])
      else s.(threads := s.threads[t := EndUnref(h)])
  {
    assert PcInv(s, t);
    HeldLive(s, t, h);
    KidsAreChildren(s, h);
    KidsNotNegative(s, h);
    hide HasChild;
  }

  lemma KidsNotNegative(s: State, h: nat)
    requires Inv(s) && h < |s.objs|
    ensures s.objs[h].kids >= 0
  {
    assert ObjInv(s, h);
  }

  /** The step after the check drops the application's reference and nothing else. */
  lemma FreeDrops(s: State, t: nat, h: nat, refuse: bool)
    requires Inv(s) && t < |s.threads| && s.threads[t] == FreeDrop(h)
    ensures h < |s.objs| && Enabled(s, t, Go(refuse)) && s.objs[h].refc >= 2
    ensures Advance(s, t, refuse) ==
      s.(objs := s.objs[h := s.objs[h].(refc := s.objs[h].refc - 1, open := false)],
         threads := s.threads[t := EndUnref(h)])
  {
    assert PcInv(s, t);
    HeldLive(s, t, h);
    assert ObjInv(s, h);
    TotalAtLeast(s.threads, t, Drops(h));
  }

  /** An alloc call hands out a connection of an environment, or a descriptor of a connection, with one
      reference, the application's. */
  lemma AllocHandsOut(s: State, t: nat, h: nat, refuse: bool)
    requires Inv(s) && t < |s.threads| && s.threads[t] == AllocPublish(h)
    ensures h < |s.objs| && Enabled(s, t, Go(refuse)) && s.objs[h].life == Live && s.objs[h].kind != Desc
    ensures var kind := if s.objs[h].kind == Env then Conn else Desc;
      Advance(s, t, refuse) ==
      s.(objs := s.objs + [Obj(kind, h, 1, 0, Live, true, false, 0)], threads := s.threads[t := EndUnref(h)])
  {
    assert PcInv(s, t);
    HeldLive(s, t, h);
  }

  /** In every interleaving: the step of a free call that stands at its check on an environment or a
      connection with a child leaves every structure as it is and ends the call. */
  lemma FreeRefused(tr: seq<State>, sched: seq<Move>, i: nat, h: nat, refuse: bool)
    requires Run(tr, sched) && i < |sched| && sched[i].action == Go(refuse) && sched[i].thread < |tr[i].threads|
    requires tr[i].threads[sched[i].thread] == FreeCheck(h) && h < |tr[i].objs| && tr[i].objs[h].kind != Desc
    requires HasChild(tr[i], h)
    ensures tr[i + 1].objs == tr[i].objs && tr[i + 1].threads == tr[i].threads[sched[i].thread := EndUnref(h)]
  {
    RunInv(tr, sched, i);
    FreeDecides(tr[i], sched[i].thread, h, refuse);
  }

  /** In every interleaving: when a free call on an environment or a connection goes through, the handle
      has no child. */
  lemma FreedAlone(tr: seq<State>, sched: seq<Move>, i: nat, h: nat)
    requires Run(tr, sched) && i < |sched| && h < |tr[i].objs| && h < |tr[i + 1].objs|
    requires tr[i].objs[h].kind != Desc && !tr[i].objs[h].claimed && tr[i + 1].objs[h].claimed
    ensures !HasChild(tr[i], h)
  {
    RunInv(tr, sched, i);
    var s, t := tr[i], sched[i].thread;
    ClaimedByCheck(s, t, sched[i].action, h);
    FreeDecides(s, t, h, sched[i].action.refuse);
    hide HasChild;
  }

  lemma ClaimedByCheck(s: State, t: nat, a: Action, h: nat)
    requires Inv(s) && Enabled(s, t, a) && h < |s.objs| && !s.objs[h].claimed
    requires h < |Apply(s, t, a).objs| && Apply(s, t, a).objs[h].claimed
    ensures a.Go? && s.threads[t] == FreeCheck(h)
  {
    hide Inv;
  }

  /** A call starts by taking the bracket's reference, and its last reference but one goes quietly. */
  lemma CallBrackets(s: State, t: nat, h: nat)
    requires Inv(s) && t < |s.threads| && s.threads[t] == Idle && h < |s.objs| && s.objs[h].open
    ensures var held := s.objs[h := s.objs[h].(refc := s.objs[h].refc + 1)];
      && s.objs[h].life == Live
      && Enabled(s, t, StartUse(h)) && Enabled(s, t, StartFree(h))
      && Apply(s, t, StartUse(h)) == s.(objs := held, threads := s.threads[t := EndUnref(h)])
      && Apply(s, t, StartFree(h)) == s.(objs := held, threads := s.threads[t := FreeCheck(h)])
      && (s.objs[h].kind != Desc ==>
            && Enabled(s, t, StartAlloc(h))
            && Apply(s, t, StartAlloc(h)) == s.(objs := held, threads := s.threads[t := AllocCreate(h)]))
  {
    OpenLive(s, h);
    assert ObjInv(s, h);
  }

  lemma CallEnds(s: State, t: nat, h: nat, refuse: bool)
    requires Inv(s) && t < |s.threads| && s.threads[t] == EndUnref(h)
    ensures h < |s.objs| && Enabled(s, t, Go(refuse)) && s.objs[h].refc >= 1
    ensures s.objs[h].refc > 1 ==>
      Advance(s, t, refuse) ==
      s.(objs := s.objs[h := s.objs[h].(refc := s.objs[h].refc - 1)], threads := s.threads[t := Idle])
    ensures s.objs[h].refc == 1 ==>
      Advance(s, t, refuse).objs[h].life == Uncounting && Advance(s, t, refuse).threads[t] == Uncount(h, [h])
  {
    assert PcInv(s, t);
    HeldLive(s, t, h);
  }

  /** On the way to a new child its parent gains a reference and then a place in its counter; when
      memory for it is refused the call ends. */
  lemma AllocSteps(s: State, t: nat, h: nat, refuse: bool)
    requires Inv(s) && t < |s.threads| && h < |s.objs|
    requires s.threads[t] == AllocCreate(h) || s.threads[t] == AllocParentRef(h) || s.threads[t] == AllocCount(h)
    ensures Enabled(s, t, Go(refuse))
    ensures s.threads[t] == AllocCreate(h) ==>
      Advance(s, t, refuse) == s.(threads := s.threads[t := if refuse then EndUnref(h) else AllocParentRef(h)])
    ensures s.threads[t] == AllocParentRef(h) ==>
      Advance(s, t, refuse) ==
      s.(objs := s.objs[h := s.objs[h].(refc := s.objs[h].refc + 1)], threads := s.threads[t := AllocCount(h)])
    ensures s.threads[t] == AllocCount(h) ==>
      Advance(s, t, refuse) ==
      s.(objs := s.objs[h := s.objs[h].(kids := s.objs[h].kids + 1)], threads := s.threads[t := AllocPublish(h)])
  {
    HeldLive(s, t, h);
    KidsNotNegative(s, h);
  }
}
