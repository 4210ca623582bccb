/** The thread manager (src/libs/baseapp/thread_manager.cpp) on top of the aspect manager: which threads it
    holds in which bucket, on success and on every way to fail. */
module Threads {
  import opened ScalarText
  import opened Aspects
  import opened MapFacts

  /** threads_, one bucket for each hook, and untimed_threads_. */
  datatype Lists = Lists(timed: map<nat, seq<Thread>>, untimed: seq<Thread>)

  datatype System = System(aspects: Aspects.State, threads: Lists)

  /** What the calls into the thread itself do: init, prepare_finalize and finalize. */
  datatype Behaviour = Behaviour(initOk: bool, prepareOk: bool, finalizeOk: bool)

  predicate Managed(b: Lists, t: Thread) {
    if t.hook.Some? then t.hook.value in b.timed && t in b.timed[t.hook.value] else t in b.untimed
  }

  // ---- What the operations do ----

  /** internal_add_thread */
  function InternalAdd(b: Lists, t: Thread): Lists {
    if t.hook.Some? then
      var h := t.hook.value;
      b.(timed := b.timed[h := (if h in b.timed then b.timed[h] else []) + [t]])
    else b.(untimed := b.untimed + [t])
  }

  /** internal_remove_thread */
  function InternalRemove(b: Lists, t: Thread): Lists {
    if t.hook.Some? then
      var h := t.hook.value;
      if h !in b.timed then b
      else if Without(b.timed[h], t) == [] then b.(timed := b.timed - {h})
      else b.(timed := b.timed[h := Without(b.timed[h], t)])
    else b.(untimed := Without(b.untimed, t))
  }

  /** add_maybelocked for one thread: the new state, and whether it returned normally. */
  function Add(s: System, t: Thread, env: Env, own: Behaviour): (System, bool) {
    var r := Init(s.aspects, t, env);
    if r.end != Done then (s.(aspects := r.state), false)
    else if !own.initOk then (s.(aspects := FinalizeThread(r.state, t, env).state), false)
    else (System(r.state, InternalAdd(s.threads, t)), true)
  }

  /** remove_maybelocked for one thread. */
  function Remove(s: System, t: Thread, env: Env, own: Behaviour): (System, bool) {
    if !own.prepareOk || !own.finalizeOk then (s, false)
    else
      var r := FinalizeThread(s.aspects, t, env);
      if r.end != Done then (s.(aspects := r.state), false) else (System(r.state, InternalRemove(s.threads, t)), true)
  }

  /** wakeup, apart from waking the threads. */
  function Wake(b: Lists, h: nat): Lists {
    if h in b.timed && b.timed[h] == [] then b.(timed := b.timed - {h}) else b
  }

  // ---- Buckets ----

  /** Timed threads sit in the bucket of their own hook and nowhere else, and no bucket is empty. */
  ghost predicate Sorted(b: Lists) {
    && (forall h :: h in b.timed ==> b.timed[h] != [])
    && (forall h, t :: h in b.timed && t in b.timed[h] ==> t.hook == Some(h))
    && (forall t :: t in b.untimed ==> t.hook == None)
  }

  lemma InternalAddSpec(b: Lists, t: Thread)
    requires Sorted(b)
    ensures Sorted(InternalAdd(b, t))
    ensures forall u :: Managed(InternalAdd(b, t), u) <==> Managed(b, u) || u == t
  {
  }

  lemma InternalRemoveSpec(b: Lists, t: Thread)
    requires Sorted(b)
    ensures Sorted(InternalRemove(b, t))
    ensures forall u :: Managed(InternalRemove(b, t), u) <==> Managed(b, u) && u != t
  {
    if t.hook.Some? {
      if t.hook.value in b.timed { WithoutSpec(b.timed[t.hook.value], t); }
    } else {
      WithoutSpec(b.untimed, t);
    }
  }

  /** Waking a hook never finds an empty bucket to erase. */
  lemma WakeChangesNothing(b: Lists, h: nat)
    requires Sorted(b)
    ensures Wake(b, h) == b
  {
  }

  /** timed_threads_exist tells whether some managed thread is timed. */
  lemma TimedExist(b: Lists)
    requires Sorted(b)
    ensures b.timed.Keys != {} <==> exists t :: Managed(b, t) && t.hook.Some?
  {
    if b.timed.Keys != {} {
      var h :| h in b.timed;
      var t := b.timed[h][0];
      assert t in b.timed[h] && Managed(b, t);
    }
  }

  // ---- Managed and tracked ----

  /** The managed threads are exactly those whose aspects are initialized. */
  ghost predicate InStep(s: System) {
    forall t: Thread :: t.aspected && t.aspects != [] ==> (Managed(s.threads, t) <==> IsTracked(s.aspects, t))
  }

  ghost predicate Good(s: System) {
    Safe(s.aspects) && Sorted(s.threads) && InStep(s)
  }

  /** Tracking a thread adds that thread and no other. */
  lemma InitTracks(s: Aspects.State, t: Thread, env: Env, u: Thread)
    requires Safe(s)
    ensures var r := Init(s, t, env);
            IsTracked(r.state, u) <==> IsTracked(s, u) || (r.end == Done && u == t && t.aspected && t.aspects != [])
  {
    hide Init, Tracked;
    InitSpec(s, t, env);
    var r := Init(s, t, env);
    if r.end == Done && IsTracked(r.state, u) && u != t {
      forall a | a in u.aspects ensures u in Tracked(s, a) { assert u in Tracked(r.state, a); }
    }
  }

  lemma FinalizeUntracks(s: Aspects.State, t: Thread, env: Env, u: Thread)
    requires Safe(s)
    ensures var r := FinalizeThread(s, t, env);
            IsTracked(r.state, u) <==> IsTracked(s, u) && !(r.end == Done && u == t)
  {
    hide FinalizeThread, Tracked;
    FinalizeSpec(s, t, env);
    var r := FinalizeThread(s, t, env);
    if r.end == Done && u == t && t.aspected && t.aspects != [] {
      assert t !in Tracked(r.state, t.aspects[0]) && t.aspects[0] in t.aspects;
    }
  }

  /** Every initializer of the thread succeeds, and so does every finalizer. */
  ghost predicate Initializes(s: System, t: Thread, env: Env) {
    Init(s.aspects, t, env).end == Done
  }

  ghost predicate Finalizes(t: Thread, env: Env) {
    forall j :: 0 <= j < |t.aspects| ==> env.finOk(j)
  }

  lemma AddTracks(s: System, t: Thread, env: Env, own: Behaviour, u: Thread)
    requires Safe(s.aspects) && t.aspected && t.aspects != []
    ensures var s' := Add(s, t, env, own).0;
            IsTracked(s'.aspects, u) <==>
            if u == t && Initializes(s, t, env) then own.initOk || !Finalizes(t, env) else IsTracked(s.aspects, u)
  {
    hide Init, FinalizeThread, IsTracked, Tracked, Safe;
    InitTracks(s.aspects, t, env, u);
    InitSafe(s.aspects, t, env);
    InitSpec(s.aspects, t, env);
    var m := Init(s.aspects, t, env).state;
    FinalizeUntracks(m, t, env, u);
    FinalizeSpec(m, t, env);
  }

  lemma AddSafe(s: System, t: Thread, env: Env, own: Behaviour)
    requires Safe(s.aspects) && Sorted(s.threads)
    ensures var s' := Add(s, t, env, own).0; Safe(s'.aspects) && Sorted(s'.threads)
    ensures forall u :: Managed(Add(s, t, env, own).0.threads, u) <==>
            Managed(s.threads, u) || (Add(s, t, env, own).1 && u == t)
  {
    hide Init, FinalizeThread, InternalAdd, Safe, Sorted, Managed;
    InitSafe(s.aspects, t, env);
    FinalizeSafe(Init(s.aspects, t, env).state, t, env);
    InternalAddSpec(s.threads, t);
  }

  /** Adding a thread keeps managed and tracked threads the same except in two cases, both when the thread's own
      init fails after its aspects were initialized: a new thread whose finalizers then fail stays tracked, and
      a thread that was managed already is no longer tracked. */
  lemma AddExact(s: System, t: Thread, env: Env, own: Behaviour)
    requires Good(s) && t.aspected && t.aspects != []
    ensures Good(Add(s, t, env, own).0) <==>
            !(Initializes(s, t, env) && !own.initOk && (Managed(s.threads, t) <==> Finalizes(t, env)))
  {
    hide IsTracked, Managed, Initializes, Finalizes, Safe, Sorted;
    AddSafe(s, t, env, own);
    var s' := Add(s, t, env, own).0;
    forall u: Thread ensures Managed(s'.threads, u) <==> Managed(s.threads, u) || (Add(s, t, env, own).1 && u == t)
      ensures IsTracked(s'.aspects, u) <==>
              if u == t && Initializes(s, t, env) then own.initOk || !Finalizes(t, env) else IsTracked(s.aspects, u)
    {
      AddTracks(s, t, env, own, u);
    }
    AddOutcome(s, t, env, own);
    InStepOthers(s, s', t);
  }

  lemma AddOutcome(s: System, t: Thread, env: Env, own: Behaviour)
    ensures Add(s, t, env, own).1 <==> Initializes(s, t, env) && own.initOk
  {
  }

  /** When nothing but t may have changed, only t decides. */
  lemma InStepOthers(s: System, s': System, t: Thread)
    requires InStep(s) && t.aspected && t.aspects != []
    requires forall u :: u != t ==> (Managed(s'.threads, u) <==> Managed(s.threads, u))
    requires forall u :: u != t ==> (IsTracked(s'.aspects, u) <==> IsTracked(s.aspects, u))
    ensures InStep(s') <==> (Managed(s'.threads, t) <==> IsTracked(s'.aspects, t))
  {
    hide Managed, IsTracked;
  }

  lemma PlainAdd(s: System, t: Thread, env: Env, own: Behaviour)
    requires Good(s) && !(t.aspected && t.aspects != [])
    ensures Good(Add(s, t, env, own).0)
  {
    hide IsTracked, Managed, Safe, Sorted, Init, FinalizeThread;
    AddSafe(s, t, env, own);
    var r := Init(s.aspects, t, env);
    InitSafe(s.aspects, t, env);
    forall u: Thread | u.aspected && u.aspects != []
      ensures Managed(Add(s, t, env, own).0.threads, u) <==> IsTracked(Add(s, t, env, own).0.aspects, u)
    {
      InitTracks(s.aspects, t, env, u);
      FinalizeUntracks(r.state, t, env, u);
    }
  }

  /** Adding a thread that is not managed yet keeps the system good, whatever fails but its finalizers. */
  lemma AddKeeps(s: System, t: Thread, env: Env, own: Behaviour)
    requires Good(s) && !Managed(s.threads, t) && Finalizes(t, env)
    ensures Good(Add(s, t, env, own).0)
    ensures Managed(Add(s, t, env, own).0.threads, t) <==> Add(s, t, env, own).1
  {
    hide Good, Add, Managed;
    if t.aspected && t.aspects != [] { AddExact(s, t, env, own); } else { PlainAdd(s, t, env, own); }
    AddManages(s, t, env, own);
  }

  lemma AddManages(s: System, t: Thread, env: Env, own: Behaviour)
    requires Good(s)
    ensures Managed(Add(s, t, env, own).0.threads, t) <==> Managed(s.threads, t) || Add(s, t, env, own).1
  {
    AddSafe(s, t, env, own);
  }

  /** Removing a thread keeps the system good, whatever fails. */
  lemma RemoveKeeps(s: System, t: Thread, env: Env, own: Behaviour)
    requires Good(s)
    ensures Good(Remove(s, t, env, own).0)
    ensures Remove(s, t, env, own).1 ==> !Managed(Remove(s, t, env, own).0.threads, t)
    ensures !Remove(s, t, env, own).1 ==> Remove(s, t, env, own).0 == s
  {
    hide IsTracked, Managed, Safe, Sorted, FinalizeThread, InternalRemove;
    FinalizeSafe(s.aspects, t, env);
    FinalizeSpec(s.aspects, t, env);
    InternalRemoveSpec(s.threads, t);
    forall u: Thread | u.aspected && u.aspects != []
      ensures Managed(Remove(s, t, env, own).0.threads, u) <==> IsTracked(Remove(s, t, env, own).0.aspects, u)
    {
      FinalizeUntracks(s.aspects, t, env, u);
    }
  }

  /** A removal succeeds exactly if the thread lets itself be removed and finalized, and every aspect of it is known
      and finalizes it; otherwise it throws and nothing has changed. */
  lemma RemoveOutcome(s: System, t: Thread, env: Env, own: Behaviour)
    ensures Remove(s, t, env, own).1 <==>
            && own.prepareOk && own.finalizeOk
            && (t.aspected ==> forall j :: 0 <= j < |t.aspects| ==> t.aspects[j] in s.aspects.inifins && env.finOk(j))
    ensures !Remove(s, t, env, own).1 ==> Remove(s, t, env, own).0 == s
  {
    hide FinalizeThread, InternalRemove;
    FinalizeSpec(s.aspects, t, env);
  }

  /** The bucket of a hook, or the threads without one. */
  function Bucket(b: Lists, hook: Option<nat>): seq<Thread> {
    if hook.None? then b.untimed else if hook.value in b.timed then b.timed[hook.value] else []
  }

  /** A new thread goes to the end of its bucket, and leaves the others in their order when it goes. */
  lemma BucketOrder(b: Lists, t: Thread, hook: Option<nat>)
    ensures Bucket(InternalAdd(b, t), hook) == if hook == t.hook then Bucket(b, hook) + [t] else Bucket(b, hook)
    ensures Bucket(InternalRemove(b, t), hook) ==
            if hook == t.hook then Without(Bucket(b, hook), t) else Bucket(b, hook)
  {
  }

  // ---- Runs ----

  datatype Step =
    | DoAdd(t: Thread, env: Env, own: Behaviour)
    | DoRemove(t: Thread, env: Env, own: Behaviour)
    | DoWake(hook: nat)
    | DoAspect(f: IniFin, register: bool)

  function Do(s: System, step: Step): System {
    match step
    case DoAdd(t, env, own) => Add(s, t, env, own).0
    case DoRemove(t, env, own) => Remove(s, t, env, own).0
    case DoWake(h) => s.(threads := Wake(s.threads, h))
    case DoAspect(f, register) =>
      s.(aspects := Aspects.Do(s.aspects, if register then DoRegister(f) else DoUnregister(f)))
  }

  function Run(s: System, steps: seq<Step>): System
    decreases |steps|
  {
    if steps == [] then s else Run(Do(s, steps[0]), steps[1..])
  }

  /** Only threads that are not managed are added, and their finalizers do not fail. */
  ghost predicate Orderly(s: System, steps: seq<Step>)
    decreases |steps|
  {
    steps == [] ||
    (&& (steps[0].DoAdd? ==> !Managed(s.threads, steps[0].t) && Finalizes(steps[0].t, steps[0].env))
     && Orderly(Do(s, steps[0]), steps[1..]))
  }

  lemma AspectKeeps(s: System, f: IniFin, register: bool)
    requires Good(s)
    ensures Good(Do(s, DoAspect(f, register)))
  {
    var step := if register then DoRegister(f) else DoUnregister(f);
    StepSafe(s.aspects, step);
    var a := Aspects.Do(s.aspects, step);
    assert forall n :: Tracked(a, n) == Tracked(s.aspects, n);
    assert forall t :: IsTracked(a, t) <==> IsTracked(s.aspects, t);
  }

  lemma StepKeeps(s: System, step: Step)
    requires Good(s) && (step.DoAdd? ==> !Managed(s.threads, step.t) && Finalizes(step.t, step.env))
    ensures Good(Do(s, step))
  {
    match step
    case DoAdd(t, env, own) => AddKeeps(s, t, env, own);
    case DoRemove(t, env, own) => RemoveKeeps(s, t, env, own);
    case DoWake(h) => WakeChangesNothing(s.threads, h);
    case DoAspect(f, register) => AspectKeeps(s, f, register);
  }

  /** Over every orderly run, from nothing on: the managed threads are exactly those whose aspects are
      initialized, each timed thread is in the bucket of its hook, and no bucket is empty. */
  lemma {:induction false} RunKeeps(s: System, steps: seq<Step>)
    requires Good(s) && Orderly(s, steps)
    ensures Good(Run(s, steps))
    decreases |steps|
  {
    hide Good, Do, Managed, Finalizes;
    if steps != [] {
      StepKeeps(s, steps[0]);
      RunKeeps(Do(s, steps[0]), steps[1..]);
    }
  }

  lemma NothingYetGood()
    ensures Good(System(State(map[], map[]), Lists(map[], [])))
  {
    NothingYet();
    forall t: Thread | t.aspected && t.aspects != [] ensures !IsTracked(State(map[], map[]), t) {
      assert t.aspects[0] in t.aspects;
    }
  }

  /** After every orderly run from nothing on, a thread with aspects is managed exactly if its aspects are
      initialized, and timed_threads_exist exactly if some managed thread is timed. */
  lemma OrderlyRuns(steps: seq<Step>)
    requires Orderly(System(State(map[], map[]), Lists(map[], [])), steps)
    ensures var s := Run(System(State(map[], map[]), Lists(map[], [])), steps);
            && (forall t: Thread :: t.aspected && t.aspects != [] ==>
               (Managed(s.threads, t) <==> IsTracked(s.aspects, t)))
            && (s.threads.timed.Keys != {} <==> exists t :: Managed(s.threads, t) && t.hook.Some?)
  {
    NothingYetGood();
    RunKeeps(System(State(map[], map[]), Lists(map[], [])), steps);
    TimedExist(Run(System(State(map[], map[]), Lists(map[], [])), steps).threads);
  }

  // ---- An input for which managed and tracked part ----

  const FINE := Env(_ => true, _ => true, _ => true, _ => true)
  const WORKS := Behaviour(true, true, true)
  const INIT_FAILS := Behaviour(false, true, true)

  lemma AddFine(s: System, t: Thread, own: Behaviour)
    requires Good(s) && t.aspected && t.aspects != [] && forall a :: a in t.aspects ==> a in s.aspects.inifins
    ensures var s' := Add(s, t, FINE, own).0;
            && (Managed(s'.threads, t) <==> Managed(s.threads, t) || own.initOk)
            && (IsTracked(s'.aspects, t) <==> own.initOk)
  {
    hide Add, Managed, IsTracked, Init, Good, Tracked;
    InitSpec(s.aspects, t, FINE);
    AddOutcome(s, t, FINE, own);
    AddManages(s, t, FINE, own);
    GoodParts(s);
    AddTracks(s, t, FINE, own, t);
  }

  lemma GoodParts(s: System)
    requires Good(s)
    ensures Safe(s.aspects)
  {
  }

  /** A thread is added twice, and its own init fails the second time: it is still managed, but its aspects have
      been finalized. */
  lemma AddedTwice()
    ensures var t := Thread(0, true, ["A"], None);
            var s := Run(System(State(map[], map[]), Lists(map[], [])),
                [DoAspect(IniFin("A", 0), true), DoAdd(t, FINE, WORKS)]);
            var s' := Add(s, t, FINE, INIT_FAILS).0;
            Good(s) && Managed(s.threads, t) && !Good(s') && Managed(s'.threads, t) && !IsTracked(s'.aspects, t)
  {
    hide Add, IsTracked, Init, Good, Tracked, Safe;
    var f, t := IniFin("A", 0), Thread(0, true, ["A"], None);
    var s0 := System(State(map[], map[]), Lists(map[], []));
    var steps := [DoAspect(f, true), DoAdd(t, FINE, WORKS)];
    var s1 := Do(s0, DoAspect(f, true));
    assert steps[1..] == [DoAdd(t, FINE, WORKS)] && [DoAdd(t, FINE, WORKS)][1..] == [];
    assert Run(s0, steps) == Run(s1, [DoAdd(t, FINE, WORKS)]) == Run(Do(s1, DoAdd(t, FINE, WORKS)), []);
    NothingYetGood();
    AspectKeeps(s0, f, true);
    AddFine(s1, t, WORKS);
    AddKeeps(s1, t, FINE, WORKS);
    var s := Add(s1, t, FINE, WORKS).0;
    AddKeepsInifins(s1, t, FINE, WORKS);
    AddFine(s, t, INIT_FAILS);
    NotInStep(Add(s, t, FINE, INIT_FAILS).0, t);
  }

  /** A thread is added and removed again: both succeed, and then it is neither managed nor tracked. */
  lemma AddedAndRemoved()
    ensures var t := Thread(0, true, ["A"], Some(3));
            var s := Do(System(State(map[], map[]), Lists(map[], [])), DoAspect(IniFin("A", 0), true));
            var s1 := Add(s, t, FINE, WORKS).0;
            var r := Remove(s1, t, FINE, WORKS);
            && Add(s, t, FINE, WORKS).1 && Managed(s1.threads, t) && IsTracked(s1.aspects, t)
            && r.1 && !Managed(r.0.threads, t) && !IsTracked(r.0.aspects, t)
  {
    hide Add, Remove, IsTracked, Init, FinalizeThread, Good, Tracked, Safe, Managed;
    var f, t := IniFin("A", 0), Thread(0, true, ["A"], Some(3));
    var s0 := System(State(map[], map[]), Lists(map[], []));
    var s := Do(s0, DoAspect(f, true));
    NothingYetGood();
    AspectKeeps(s0, f, true);
    AddFine(s, t, WORKS);
    AddOutcome(s, t, FINE, WORKS);
    InitSpec(s.aspects, t, FINE);
    NothingManaged(t);
    AddKeeps(s, t, FINE, WORKS);
    AddKeepsInifins(s, t, FINE, WORKS);
    var s1 := Add(s, t, FINE, WORKS).0;
    RemoveOutcome(s1, t, FINE, WORKS);
    RemoveKeeps(s1, t, FINE, WORKS);
    InStepAt(Remove(s1, t, FINE, WORKS).0, t);
  }

  lemma NothingManaged(t: Thread)
    ensures !Managed(Lists(map[], []), t)
  {
  }

  lemma InStepAt(s: System, t: Thread)
    requires Good(s) && t.aspected && t.aspects != []
    ensures Managed(s.threads, t) <==> IsTracked(s.aspects, t)
  {
  }

  lemma AddKeepsInifins(s: System, t: Thread, env: Env, own: Behaviour)
    ensures Add(s, t, env, own).0.aspects.inifins == s.aspects.inifins
  {
    hide Init, FinalizeThread;
    InitSpec(s.aspects, t, env);
    FinalizeSpec(Init(s.aspects, t, env).state, t, env);
  }

  lemma NotInStep(s: System, t: Thread)
    requires t.aspected && t.aspects != [] && Managed(s.threads, t) && !IsTracked(s.aspects, t)
    ensures !Good(s)
  {
    hide IsTracked, Managed;
  }

  // ---- The time to wait ----

  /** wakeup_and_wait splits microseconds into seconds and nanoseconds, in 32-bit arithmetic. */
  function SplitTimeout(usec: Uint32): (r: (Uint32, Uint32))
    ensures r.0 * 1000000000 + r.1 == usec * 1000 && r.1 < 1000000000
  {
    var sec := if usec >= 1000000 then usec / 1000000 else 0;
    var rest := if usec >= 1000000 then (usec - sec * 1000000) % TWO_32 else usec;
    (sec, rest * 1000 % TWO_32)
  }

  // ---- The manager ----

  class ThreadManager {
    var timed: map<nat, seq<Thread>>
    var untimed: seq<Thread>
    /** initializer_ and finalizer_, if they have been set. */
    var inifin: AspectManager?

    function Held(): Lists
      reads this
    {
      Lists(timed, untimed)
    }

    constructor ()
      ensures Held() == Lists(map[], []) && inifin == null
    {
      timed, untimed, inifin := map[], [], null;
    }

    /** set_inifin */
    method SetIniFin(manager: AspectManager)
      modifies this
      ensures inifin == manager && Held() == old(Held())
    {
      inifin := manager;
    }

    method InternalAddThread(t: Thread)
      modifies this`timed, this`untimed
      ensures Held() == InternalAdd(old(Held()), t)
    {
      if t.hook.Some? {
        var h := t.hook.value;
        if h !in timed {
          timed := timed[h := []];
        }
        UpdateTwice(timed, h, [], timed[h] + [t]);
        timed := timed[h := timed[h] + [t]];
      } else {
        untimed := untimed + [t];
      }
    }

    method InternalRemoveThread(t: Thread)
      modifies this`timed, this`untimed
      ensures Held() == InternalRemove(old(Held()), t)
    {
      if t.hook.Some? {
        var h := t.hook.value;
        if h in timed {
          timed := timed[h := Without(timed[h], t)];
          if timed[h] == [] {
            timed := timed - {h};
          }
        }
      } else {
        untimed := Without(untimed, t);
      }
    }

    /** add for one thread; false where it throws. */
    method AddThread(thread: Option<Thread>, env: Env, own: Behaviour) returns (ok: bool)
      modifies this`timed, this`untimed, inifin
      ensures inifin == old(inifin)
      ensures thread.None? || inifin == null ==>
              !ok && Held() == old(Held()) && (inifin != null ==> inifin.Now() == old(inifin.Now()))
      ensures thread.Some? && inifin != null ==>
                (System(inifin.Now(), Held()), ok) == Add(old(System(inifin.Now(), Held())), thread.value, env, own)
    {
      hide Init, FinalizeThread, InternalAdd;
      if thread.None? || inifin == null {
        return false;
      }
      var end := inifin.InitThread(thread.value, env);
      if end != Done {
        return false;
      }
      if !own.initOk {
        end := inifin.Finalize(thread.value, env);
        return false;
      }
      InternalAddThread(thread.value);
      ok := true;
    }

    /** remove for one thread; false where it throws. */
    method RemoveThread(thread: Option<Thread>, env: Env, own: Behaviour) returns (ok: bool)
      modifies this`timed, this`untimed, inifin
      ensures inifin == old(inifin)
      ensures thread.None? ==> ok
      ensures thread.None? || inifin == null ==>
              Held() == old(Held()) && (inifin != null ==> inifin.Now() == old(inifin.Now()))
      ensures thread.Some? && inifin == null ==> !ok
      ensures thread.Some? && inifin != null ==>
                (System(inifin.Now(), Held()), ok) == Remove(old(System(inifin.Now(), Held())), thread.value, env, own)
    {
      hide FinalizeThread, InternalRemove;
      if thread.None? {
        return true;
      }
      if inifin == null || !own.prepareOk || !own.finalizeOk {
        return false;
      }
      var end := inifin.Finalize(thread.value, env);
      if end != Done {
        return false;
      }
      InternalRemoveThread(thread.value);
      ok := true;
    }

    /** wakeup */
    method Wakeup(h: nat)
      modifies this`timed
      ensures Held() == Wake(old(Held()), h)
    {
      if h in timed {
        if timed[h] == [] {
          timed := timed - {h};
        }
      }
    }

    predicate TimedThreadsExist()
      reads this
    {
      timed.Keys != {}
    }
  }
}
