/** Aspects of threads (src/libs/aspect/manager.cpp): initializers that may fail halfway, rollback in reverse,
    and the rule that an aspect in use cannot be taken away. */
module Aspects {
  import opened ScalarText
  import opened MapFacts

  /** A thread, with the names of its aspects if it has any, and its hook if it is timed. */
  datatype Thread = Thread(id: nat, aspected: bool, aspects: seq<string>, hook: Option<nat>)

  /** An initializer and finalizer of one aspect. */
  datatype IniFin = IniFin(aspect: string, id: nat)

  /** A call into an initializer or finalizer. */
  datatype Call = Initialize(aspect: string, thread: Thread) | Finalize(aspect: string, thread: Thread)

  /** Which of the calls for the aspects of a thread, by position, return normally. */
  datatype Env = Env(initOk: nat -> bool, undoOk: nat -> bool, finOk: nat -> bool, prepareOk: nat -> bool)

  /** inifins_ and threads_. */
  datatype State = State(inifins: map<string, IniFin>, threads: map<string, seq<Thread>>)

  /** How a call ended: normally, for want of an initializer, or with an exception from one. */
  datatype End = Done | Unknown(aspect: string) | Failed

  datatype Result = Result(state: State, calls: seq<Call>, end: End)

  function Tracked(s: State, a: string): seq<Thread> {
    if a in s.threads then s.threads[a] else []
  }

  predicate IsTracked(s: State, t: Thread) {
    t.aspected && t.aspects != [] && forall a :: a in t.aspects ==> t in Tracked(s, a)
  }

  // ---- register_inifin and unregister_inifin ----

  /** None where the source throws. */
  function Register(s: State, f: IniFin): Option<State> {
    if f.aspect in s.inifins then None else Some(s.(inifins := s.inifins[f.aspect := f]))
  }

  function Unregister(s: State, f: IniFin): Option<State> {
    if f.aspect !in s.inifins || Tracked(s, f.aspect) != [] then None
    else Some(State(s.inifins - {f.aspect}, s.threads - {f.aspect}))
  }

  // ---- init ----

  /** Where initializing the aspects from the i-th on ends, and the calls made on the way. */
  function InitFrom(s: State, t: Thread, i: nat, env: Env): (r: (nat, seq<Call>, End))
    requires i <= |t.aspects|
    ensures i <= r.0 <= |t.aspects|
    decreases |t.aspects| - i
  {
    if i == |t.aspects| then (i, [], Done)
    else if t.aspects[i] !in s.inifins then (i, [], Unknown(t.aspects[i]))
    else if !env.initOk(i) then (i, [Initialize(t.aspects[i], t)], Failed)
    else
      var r := InitFrom(s, t, i + 1, env);
      (r.0, [Initialize(t.aspects[i], t)] + r.1, r.2)
  }

  /** The rollback: the first n aspects, the last of them first, up to a finalizer that fails. */
  function Undo(t: Thread, n: nat, env: Env): seq<Call>
    requires n <= |t.aspects|
  {
    if n == 0 then []
    else [Finalize(t.aspects[n - 1], t)] + if env.undoOk(n - 1) then Undo(t, n - 1, env) else []
  }

  function Push(s: State, a: string, t: Thread): State {
    s.(threads := s.threads[a := Tracked(s, a) + [t]])
  }

  function Track(s: State, t: Thread, i: nat): State
    requires i <= |t.aspects|
    decreases |t.aspects| - i
  {
    if i == |t.aspects| then s else Track(Push(s, t.aspects[i], t), t, i + 1)
  }

  function Init(s: State, t: Thread, env: Env): Result {
    if !t.aspected then Result(s, [], Done)
    else
      var r := InitFrom(s, t, 0, env);
      if r.2 == Done then Result(Track(s, t, 0), r.1, Done) else Result(s, r.1 + Undo(t, r.0, env), r.2)
  }

  // ---- finalize ----

  function FinalizeFrom(s: State, t: Thread, i: nat, env: Env): (seq<Call>, End)
    requires i <= |t.aspects|
    decreases |t.aspects| - i
  {
    if i == |t.aspects| then ([], Done)
    else if t.aspects[i] !in s.inifins then ([], Unknown(t.aspects[i]))
    else if !env.finOk(i) then ([Finalize(t.aspects[i], t)], Failed)
    else
      var r := FinalizeFrom(s, t, i + 1, env);
      ([Finalize(t.aspects[i], t)] + r.0, r.1)
  }

  /** std::list::remove: every element equal to the thread. */
  function Without(ts: seq<Thread>, t: Thread): seq<Thread> {
    if ts == [] then [] else (if ts[0] == t then [] else [ts[0]]) + Without(ts[1..], t)
  }

  function Pull(s: State, a: string, t: Thread): State {
    s.(threads := s.threads[a := Without(Tracked(s, a), t)])
  }

  function Untrack(s: State, t: Thread, i: nat): State
    requires i <= |t.aspects|
    decreases |t.aspects| - i
  {
    if i == |t.aspects| then s else Untrack(Pull(s, t.aspects[i], t), t, i + 1)
  }

  function FinalizeThread(s: State, t: Thread, env: Env): Result {
    if !t.aspected then Result(s, [], Done)
    else
      var r := FinalizeFrom(s, t, 0, env);
      Result(if r.1 == Done then Untrack(s, t, 0) else s, r.0, r.1)
  }

  /** prepare_finalize from the i-th aspect on: whether the thread may go, or the unknown aspect. */
  function PrepareFrom(s: State, t: Thread, i: nat, env: Env): (bool, End)
    requires i <= |t.aspects|
    decreases |t.aspects| - i
  {
    if i == |t.aspects| then (true, Done)
    else if t.aspects[i] !in s.inifins then (false, Unknown(t.aspects[i]))
    else if !env.prepareOk(i) then (false, Done)
    else PrepareFrom(s, t, i + 1, env)
  }

  function Prepare(s: State, t: Thread, env: Env): (bool, End) {
    if t.aspected then PrepareFrom(s, t, 0, env) else (true, Done)
  }

  // ---- Tracking ----

  lemma {:induction false} WithoutSpec(ts: seq<Thread>, t: Thread)
    ensures forall u :: u in Without(ts, t) <==> u in ts && u != t
    decreases |ts|
  {
    if ts != [] {
      WithoutSpec(ts[1..], t);
      assert ts == [ts[0]] + ts[1..];
    }
  }

  lemma PushSpec(s: State, b: string, t: Thread, a: string)
    ensures forall u :: u in Tracked(Push(s, b, t), a) <==> u in Tracked(s, a) || (u == t && a == b)
  {
  }

  lemma PullSpec(s: State, b: string, t: Thread, a: string)
    ensures forall u :: u in Tracked(Pull(s, b, t), a) <==> u in Tracked(s, a) && !(u == t && a == b)
  {
    WithoutSpec(Tracked(s, b), t);
  }

  lemma RestHas(xs: seq<string>, i: nat, a: string)
    requires i < |xs|
    ensures a in xs[i..] <==> a == xs[i] || a in xs[i + 1..]
  {
    assert xs[i..] == [xs[i]] + xs[i + 1..];
  }

  lemma {:induction false} TrackSpec(s: State, t: Thread, i: nat, a: string)
    requires i <= |t.aspects|
    ensures Track(s, t, i).inifins == s.inifins
    ensures forall u :: u in Tracked(Track(s, t, i), a) <==> u in Tracked(s, a) || (u == t && a in t.aspects[i..])
    decreases |t.aspects| - i
  {
    hide Tracked;
    if i < |t.aspects| {
      PushSpec(s, t.aspects[i], t, a);
      TrackSpec(Push(s, t.aspects[i], t), t, i + 1, a);
      RestHas(t.aspects, i, a);
    }
  }

  lemma {:induction false} UntrackSpec(s: State, t: Thread, i: nat, a: string)
    requires i <= |t.aspects|
    ensures Untrack(s, t, i).inifins == s.inifins
    ensures forall u :: u in Tracked(Untrack(s, t, i), a) <==> u in Tracked(s, a) && !(u == t && a in t.aspects[i..])
    decreases |t.aspects| - i
  {
    hide Tracked;
    if i < |t.aspects| {
      PullSpec(s, t.aspects[i], t, a);
      UntrackSpec(Pull(s, t.aspects[i], t), t, i + 1, a);
      RestHas(t.aspects, i, a);
    }
  }

  /** A thread is tracked under all of its aspects or under none, and every aspect in use is registered. */
  ghost predicate Safe(s: State) {
    && (forall a, t :: t in Tracked(s, a) ==> a in t.aspects && IsTracked(s, t))
    && (forall a :: Tracked(s, a) != [] ==> a in s.inifins)
    && (forall a :: a in s.inifins ==> s.inifins[a].aspect == a)
  }

  lemma {:induction false} InitFromSpec(s: State, t: Thread, i: nat, env: Env)
    requires i <= |t.aspects|
    ensures var r := InitFrom(s, t, i, env);
            && i <= r.0 <= |t.aspects|
            && (r.2 == Done <==> r.0 == |t.aspects|)
            && (forall j :: i <= j < r.0 ==> t.aspects[j] in s.inifins && env.initOk(j))
            && (r.2 == Failed ==> r.0 < |t.aspects| && !env.initOk(r.0))
            && (r.2.Unknown? ==> r.0 < |t.aspects| && t.aspects[r.0] == r.2.aspect && r.2.aspect !in s.inifins)
            && r.1 == Initialized(t, i, r.0) + if r.2 == Failed then [Initialize(t.aspects[r.0], t)] else []
    decreases |t.aspects| - i
  {
    if i < |t.aspects| && t.aspects[i] in s.inifins && env.initOk(i) {
      InitFromSpec(s, t, i + 1, env);
      var r := InitFrom(s, t, i + 1, env);
      var tail := if r.2 == Failed then [Initialize(t.aspects[r.0], t)] else [];
      assert Initialized(t, i, r.0) == [Initialize(t.aspects[i], t)] + Initialized(t, i + 1, r.0);
      assert [Initialize(t.aspects[i], t)] + (Initialized(t, i + 1, r.0) + tail) == Initialized(t, i, r.0) + tail;
    }
  }

  /** The calls that initialize the aspects i to n, in order. */
  function Initialized(t: Thread, i: nat, n: nat): seq<Call>
    requires i <= n <= |t.aspects|
  {
    seq(n - i, j requires 0 <= j < n - i => Initialize(t.aspects[i + j], t))
  }

  /** The calls that finalize the first n aspects, in reverse order. */
  function Reversed(t: Thread, n: nat): seq<Call>
    requires n <= |t.aspects|
  {
    seq(n, j requires 0 <= j < n => Finalize(t.aspects[n - 1 - j], t))
  }

  lemma {:induction false} UndoSpec(t: Thread, n: nat, env: Env)
    requires n <= |t.aspects|
    ensures Undo(t, n, env) <= Reversed(t, n)
    ensures (forall j :: 0 <= j < n ==> env.undoOk(j)) ==> Undo(t, n, env) == Reversed(t, n)
  {
    if n > 0 {
      UndoSpec(t, n - 1, env);
      var first := Finalize(t.aspects[n - 1], t);
      assert Reversed(t, n) == [first] + Reversed(t, n - 1);
      PrefixCons(first, Undo(t, n - 1, env), Reversed(t, n - 1));
      PrefixCons(first, [], Reversed(t, n - 1));
    }
  }

  lemma PrefixCons(x: Call, u: seq<Call>, v: seq<Call>)
    requires u <= v
    ensures [x] + u <= [x] + v
  {
  }

  /** init succeeds exactly if every aspect is registered and its initializer succeeds, and then the thread is
      tracked under all of its aspects and nothing else changes. Otherwise tracking is unchanged, and the
      aspects initialized before, and only those, are finalized in reverse order, as long as no finalizer
      throws. */
  lemma InitSpec(s: State, t: Thread, env: Env)
    ensures var r := Init(s, t, env); var n := InitFrom(s, t, 0, env).0;
            && (r.end == Done <==>
               !t.aspected || forall j :: 0 <= j < |t.aspects| ==> t.aspects[j] in s.inifins && env.initOk(j))
            && r.state.inifins == s.inifins
            && (r.end != Done ==> r.state == s)
            && (r.end == Done ==> forall a, u :: u in Tracked(r.state, a) <==>
               u in Tracked(s, a) || (u == t && t.aspected && a in t.aspects))
            && (r.end != Done && (forall j :: 0 <= j < n ==> env.undoOk(j)) ==>
                  && n < |t.aspects|
                  && var last := if r.end == Failed then [Initialize(t.aspects[n], t)] else [];
                  r.calls == Initialized(t, 0, n) + last + Reversed(t, n))
  {
    if t.aspected {
      InitFromSpec(s, t, 0, env);
      UndoSpec(t, InitFrom(s, t, 0, env).0, env);
      assert t.aspects[0..] == t.aspects;
      TrackSpec(s, t, 0, "");
      forall a, u
        ensures u in Tracked(Track(s, t, 0), a) <==> u in Tracked(s, a) || (u == t && a in t.aspects)
      {
        TrackSpec(s, t, 0, a);
      }
    }
  }

  lemma {:induction false} FinalizeFromSpec(s: State, t: Thread, i: nat, env: Env)
    requires i <= |t.aspects|
    ensures var r := FinalizeFrom(s, t, i, env);
            && (r.1 == Done <==> forall j :: i <= j < |t.aspects| ==> t.aspects[j] in s.inifins && env.finOk(j))
            && (r.1.Unknown? ==> r.1.aspect in t.aspects && r.1.aspect !in s.inifins)
    decreases |t.aspects| - i
  {
    if i < |t.aspects| && t.aspects[i] in s.inifins && env.finOk(i) {
      FinalizeFromSpec(s, t, i + 1, env);
    }
  }

  lemma FinalizeSpec(s: State, t: Thread, env: Env)
    ensures var r := FinalizeThread(s, t, env);
            && (r.end == Done <==>
               !t.aspected || forall j :: 0 <= j < |t.aspects| ==> t.aspects[j] in s.inifins && env.finOk(j))
            && r.state.inifins == s.inifins
            && (r.end != Done ==> r.state == s)
            && (r.end == Done ==> forall a, u :: u in Tracked(r.state, a) <==>
               u in Tracked(s, a) && !(u == t && t.aspected && a in t.aspects))
            && (r.end.Unknown? ==> t.aspected && r.end.aspect in t.aspects && r.end.aspect !in s.inifins)
  {
    if t.aspected {
      FinalizeFromSpec(s, t, 0, env);
      assert t.aspects[0..] == t.aspects;
      UntrackSpec(s, t, 0, "");
      forall a, u
        ensures u in Tracked(Untrack(s, t, 0), a) <==> u in Tracked(s, a) && !(u == t && a in t.aspects)
      {
        UntrackSpec(s, t, 0, a);
      }
    }
  }

  // ---- The calls and the lists, exactly ----

  /** The rollback goes on up to the first finalizer that throws, and that one is the last that is called. */
  lemma {:induction false} UndoExactly(t: Thread, n: nat, env: Env)
    requires n <= |t.aspects|
    ensures var m := |Undo(t, n, env)|;
            && m <= n && (n > 0 ==> m > 0) && Undo(t, n, env) == Reversed(t, n)[..m]
            && (forall j :: n - m < j < n ==> env.undoOk(j)) && (m < n ==> !env.undoOk(n - m))
  {
    hide Reversed;
    UndoSpec(t, n, env);
    if n > 0 && env.undoOk(n - 1) {
      UndoExactly(t, n - 1, env);
      assert |Undo(t, n, env)| == 1 + |Undo(t, n - 1, env)|;
    }
  }

  /** The calls that finalize the aspects from i to n, in order. */
  function Finalized(t: Thread, i: nat, n: nat): seq<Call>
    requires i <= n <= |t.aspects|
  {
    seq(n - i, j requires 0 <= j < n - i => Finalize(t.aspects[i + j], t))
  }

  /** finalize calls the finalizers in the order of the aspects, up to one that throws or is unknown. */
  lemma {:induction false} FinalizeCalls(s: State, t: Thread, i: nat, env: Env)
    requires i <= |t.aspects|
    ensures var r := FinalizeFrom(s, t, i, env); var n := i + |r.0|;
            && n <= |t.aspects| && r.0 == Finalized(t, i, n)
            && (forall j :: i <= j < n - 1 ==> t.aspects[j] in s.inifins && env.finOk(j))
            && match r.1
               case Done => n == |t.aspects| && (n > i ==> t.aspects[n - 1] in s.inifins && env.finOk(n - 1))
               case Failed => n > i && t.aspects[n - 1] in s.inifins && !env.finOk(n - 1)
               case Unknown(a) => n < |t.aspects| && t.aspects[n] == a && a !in s.inifins
    decreases |t.aspects| - i
  {
    if i < |t.aspects| && t.aspects[i] in s.inifins && env.finOk(i) {
      FinalizeCalls(s, t, i + 1, env);
      var r := FinalizeFrom(s, t, i + 1, env);
      var n := i + 1 + |r.0|;
      assert [Finalize(t.aspects[i], t)] + Finalized(t, i + 1, n) == Finalized(t, i, n);
    }
  }

  lemma {:induction false} PrepareFromExactly(s: State, t: Thread, i: nat, env: Env) returns (n: nat)
    requires i <= |t.aspects|
    ensures i <= n <= |t.aspects| && forall j :: i <= j < n ==> t.aspects[j] in s.inifins && env.prepareOk(j)
    ensures PrepareFrom(s, t, i, env) ==
            if n == |t.aspects| then (true, Done)
            else if t.aspects[n] in s.inifins then (false, Done) else (false, Unknown(t.aspects[n]))
    ensures n < |t.aspects| ==> t.aspects[n] !in s.inifins || !env.prepareOk(n)
    decreases |t.aspects| - i
  {
    n := i;
    if i < |t.aspects| && t.aspects[i] in s.inifins && env.prepareOk(i) {
      n := PrepareFromExactly(s, t, i + 1, env);
    }
  }

  /** The n-th aspect is the first that is not registered or refuses, and it is not registered. */
  ghost predicate UnknownAt(s: State, t: Thread, n: nat, env: Env)
    requires n < |t.aspects|
  {
    t.aspects[n] !in s.inifins && forall j :: 0 <= j < n ==> t.aspects[j] in s.inifins && env.prepareOk(j)
  }

  /** A thread may go exactly if every aspect is registered and none refuses; asking throws exactly if an aspect is
      unknown and none before it refuses. */
  lemma PrepareExactly(s: State, t: Thread, env: Env)
    ensures Prepare(s, t, env) == (true, Done) <==>
            !t.aspected || forall j :: 0 <= j < |t.aspects| ==> t.aspects[j] in s.inifins && env.prepareOk(j)
    ensures Prepare(s, t, env).1 != Done <==>
            t.aspected && exists n :: 0 <= n < |t.aspects| && UnknownAt(s, t, n, env)
    ensures Prepare(s, t, env).0 ==> Prepare(s, t, env).1 == Done
  {
    if t.aspected {
      var n := PrepareFromExactly(s, t, 0, env);
      if n < |t.aspects| && t.aspects[n] !in s.inifins { assert UnknownAt(s, t, n, env); }
      forall m: nat | m < |t.aspects| && UnknownAt(s, t, m, env) ensures m == n {
      }
    }
  }

  lemma {:induction false} TrackedAtEnd(s: State, t: Thread, i: nat, a: string)
    requires i <= |t.aspects|
    ensures Tracked(Track(s, t, i), a) == Tracked(s, a) + seq(multiset(t.aspects[i..])[a], _ => t)
    decreases |t.aspects| - i
  {
    hide Push, Tracked;
    if i < |t.aspects| {
      assert t.aspects[i..] == [t.aspects[i]] + t.aspects[i + 1..];
      TrackedAtEnd(Push(s, t.aspects[i], t), t, i + 1, a);
      PushedAtEnd(s, t.aspects[i], t, a);
      OneMoreCopy(Tracked(s, a), t, multiset(t.aspects[i + 1..])[a]);
    }
  }

  lemma PushedAtEnd(s: State, b: string, t: Thread, a: string)
    ensures Tracked(Push(s, b, t), a) == if a == b then Tracked(s, a) + [t] else Tracked(s, a)
  {
  }

  lemma OneMoreCopy(ts: seq<Thread>, t: Thread, m: nat)
    ensures ts + [t] + seq(m, _ => t) == ts + seq(m + 1, _ => t)
  {
  }

  lemma {:induction false} WithoutConcat(a: seq<Thread>, b: seq<Thread>, t: Thread)
    ensures Without(a + b, t) == Without(a, t) + Without(b, t)
    decreases |a|
  {
    if a == [] {
      assert a + b == b;
    } else {
      assert (a + b)[0] == a[0] && (a + b)[1..] == a[1..] + b;
      WithoutConcat(a[1..], b, t);
    }
  }

  lemma {:induction false} WithoutTwice(ts: seq<Thread>, t: Thread)
    ensures Without(Without(ts, t), t) == Without(ts, t)
    decreases |ts|
  {
    if ts != [] {
      WithoutTwice(ts[1..], t);
      var w := Without(ts[1..], t);
      assert ([ts[0]] + w)[1..] == w;
      assert [] + w == w;
    }
  }

  lemma {:induction false} UntrackedList(s: State, t: Thread, i: nat, a: string)
    requires i <= |t.aspects|
    ensures Tracked(Untrack(s, t, i), a) ==
            if a in t.aspects[i..] then Without(Tracked(s, a), t) else Tracked(s, a)
    decreases |t.aspects| - i
  {
    if i < |t.aspects| {
      RestHas(t.aspects, i, a);
      UntrackedList(Pull(s, t.aspects[i], t), t, i + 1, a);
      WithoutTwice(Tracked(s, a), t);
    }
  }

  /** A new thread goes to the end of the lists of its aspects, and leaves the others in their order when it goes. */
  lemma TrackingOrder(s: State, t: Thread, env: Env, a: string)
    ensures Init(s, t, env).end == Done ==>
            Tracked(Init(s, t, env).state, a) ==
            Tracked(s, a) + seq(if t.aspected then multiset(t.aspects)[a] else 0, _ => t)
    ensures FinalizeThread(s, t, env).end == Done ==>
            Tracked(FinalizeThread(s, t, env).state, a) ==
            if t.aspected && a in t.aspects then Without(Tracked(s, a), t) else Tracked(s, a)
  {
    hide Tracked;
    assert t.aspects[0..] == t.aspects;
    TrackedAtEnd(s, t, 0, a);
    UntrackedList(s, t, 0, a);
  }

  /** Registering succeeds exactly for a name that is free, adds exactly that initializer, and is undone by taking it
      away again, unless there are threads for the aspect. */
  lemma RegisterExactly(s: State, f: IniFin)
    ensures Register(s, f).Some? <==> f.aspect !in s.inifins
    ensures Register(s, f).Some? ==>
            var r := Register(s, f).value;
            && (forall a :: a in r.inifins <==> a in s.inifins || a == f.aspect) && r.inifins[f.aspect] == f
            && (forall a :: a in s.inifins ==> r.inifins[a] == s.inifins[a]) && r.threads == s.threads
    ensures Register(s, f).Some? && Tracked(s, f.aspect) == [] ==>
            var u := Unregister(Register(s, f).value, f);
            u.Some? && u.value.inifins == s.inifins && forall a :: Tracked(u.value, a) == Tracked(s, a)
  {
    if Register(s, f).Some? && Tracked(s, f.aspect) == [] {
      var r := Register(s, f).value;
      assert r.inifins - {f.aspect} == s.inifins;
    }
  }

  /** Taking away succeeds exactly for a known aspect without threads, and takes exactly that one away. */
  lemma UnregisterExactly(s: State, f: IniFin)
    ensures Unregister(s, f).Some? <==> f.aspect in s.inifins && Tracked(s, f.aspect) == []
    ensures Unregister(s, f).Some? ==>
            var r := Unregister(s, f).value;
            && (forall a :: a in r.inifins <==> a in s.inifins && a != f.aspect)
            && (forall a :: a in r.inifins ==> r.inifins[a] == s.inifins[a])
            && (forall a :: Tracked(r, a) == Tracked(s, a)) && f.aspect !in r.threads
  {
  }

  // ---- Runs ----

  datatype Step = DoRegister(f: IniFin) | DoUnregister(f: IniFin) | DoInit(t: Thread, env: Env)
                | DoFinalize(t: Thread, env: Env)

  function Do(s: State, step: Step): State {
    match step
    case DoRegister(f) => if Register(s, f).Some? then Register(s, f).value else s
    case DoUnregister(f) => if Unregister(s, f).Some? then Unregister(s, f).value else s
    case DoInit(t, env) => Init(s, t, env).state
    case DoFinalize(t, env) => FinalizeThread(s, t, env).state
  }

  function Run(s: State, steps: seq<Step>): State
    decreases |steps|
  {
    if steps == [] then s else Run(Do(s, steps[0]), steps[1..])
  }

  lemma InitSafe(s: State, t: Thread, env: Env)
    requires Safe(s)
    ensures Safe(Init(s, t, env).state)
  {
    hide Init, Tracked;
    InitSpec(s, t, env);
    var s' := Init(s, t, env).state;
    if Init(s, t, env).end == Done {
      forall a, u | u in Tracked(s', a) ensures a in u.aspects && IsTracked(s', u) {
        if u in Tracked(s, a) { assert IsTracked(s, u); }
      }
      forall a | Tracked(s', a) != [] ensures a in s'.inifins {
        var u := Tracked(s', a)[0];
        assert u in Tracked(s', a);
        if u in Tracked(s, a) {
          assert Tracked(s, a) != [];
        } else {
          var j :| 0 <= j < |t.aspects| && t.aspects[j] == a;
        }
      }
    }
  }

  lemma FinalizeSafe(s: State, t: Thread, env: Env)
    requires Safe(s)
    ensures Safe(FinalizeThread(s, t, env).state)
  {
    hide FinalizeThread, Tracked;
    FinalizeSpec(s, t, env);
    var s' := FinalizeThread(s, t, env).state;
    if FinalizeThread(s, t, env).end == Done {
      forall a, u | u in Tracked(s', a) ensures a in u.aspects && IsTracked(s', u) {
        assert u in Tracked(s, a);
      }
      forall a | Tracked(s', a) != [] ensures a in s'.inifins {
        assert Tracked(s', a)[0] in Tracked(s', a);
      }
    }
  }

  lemma StepSafe(s: State, step: Step)
    requires Safe(s)
    ensures Safe(Do(s, step))
  {
    match step
    case DoRegister(f) => RegisterSafe(s, f);
    case DoUnregister(f) => UnregisterSafe(s, f);
    case DoInit(t, env) => InitSafe(s, t, env);
    case DoFinalize(t, env) => FinalizeSafe(s, t, env);
  }

  lemma RegisterSafe(s: State, f: IniFin)
    requires Safe(s)
    ensures Register(s, f).Some? ==> Safe(Register(s, f).value)
  {
    if Register(s, f).Some? {
      var s' := Register(s, f).value;
      assert forall a :: Tracked(s', a) == Tracked(s, a);
    }
  }

  lemma UnregisterSafe(s: State, f: IniFin)
    requires Safe(s)
    ensures Unregister(s, f).Some? ==> Safe(Unregister(s, f).value)
  {
    if Unregister(s, f).Some? {
      var s' := Unregister(s, f).value;
      assert forall a :: Tracked(s', a) == Tracked(s, a);
    }
  }

  /** Over every run of registrations, initializations and finalizations, whatever fails, the state is safe. */
  lemma {:induction false} RunSafe(s: State, steps: seq<Step>)
    requires Safe(s)
    ensures Safe(Run(s, steps))
    decreases |steps|
  {
    hide Safe, Do;
    if steps != [] {
      StepSafe(s, steps[0]);
      RunSafe(Do(s, steps[0]), steps[1..]);
    }
  }

  lemma NothingYet()
    ensures Safe(State(map[], map[]))
  {
  }

  /** After any run, finalizing a thread that is tracked, or asking whether it may go, never meets an aspect
      without a finalizer. */
  lemma TrackedCanBeFinalized(steps: seq<Step>, t: Thread, env: Env)
    requires IsTracked(Run(State(map[], map[]), steps), t)
    ensures var s := Run(State(map[], map[]), steps);
            !FinalizeThread(s, t, env).end.Unknown? && Prepare(s, t, env).1 == Done
  {
    var s := Run(State(map[], map[]), steps);
    NothingYet();
    RunSafe(State(map[], map[]), steps);
    FinalizeSpec(s, t, env);
    forall a | a in t.aspects ensures a in s.inifins { assert t in Tracked(s, a); }
    PrepareKnown(s, t, 0, env);
  }

  lemma {:induction false} PrepareKnown(s: State, t: Thread, i: nat, env: Env)
    requires i <= |t.aspects| && forall a :: a in t.aspects ==> a in s.inifins
    ensures PrepareFrom(s, t, i, env).1 == Done
    ensures PrepareFrom(s, t, i, env).0 <==> forall j :: i <= j < |t.aspects| ==> env.prepareOk(j)
    decreases |t.aspects| - i
  {
    if i < |t.aspects| && env.prepareOk(i) {
      PrepareKnown(s, t, i + 1, env);
    }
  }

  // ---- The manager ----

  class AspectManager {
    var inifins: map<string, IniFin>
    var threads: map<string, seq<Thread>>
    /** The calls into initializers and finalizers so far. */
    ghost var calls: seq<Call>

    function Now(): State
      reads this
    {
      State(inifins, threads)
    }

    constructor ()
      ensures Now() == State(map[], map[]) && calls == []
    {
      inifins, threads, calls := map[], map[], [];
    }

    /** register_inifin; false where it throws. */
    method RegisterIniFin(f: IniFin) returns (ok: bool)
      modifies this
      ensures calls == old(calls)
      ensures var r := Register(old(Now()), f); if ok then r == Some(Now()) else r == None && Now() == old(Now())
    {
      if f.aspect in inifins {
        return false;
      }
      inifins := inifins[f.aspect := f];
      ok := true;
    }

    /** unregister_inifin; false where it throws. */
    method UnregisterIniFin(f: IniFin) returns (ok: bool)
      modifies this
      ensures calls == old(calls)
      ensures var r := Unregister(old(Now()), f); if ok then r == Some(Now()) else r == None && Now() == old(Now())
    {
      if f.aspect !in inifins {
        return false;
      }
      if f.aspect in threads && threads[f.aspect] != [] {
        return false;
      }
      inifins := inifins - {f.aspect};
      threads := threads - {f.aspect};
      ok := true;
    }

    predicate HasThreadsForAspect(a: string)
      reads this
      ensures HasThreadsForAspect(a) <==> Tracked(Now(), a) != []
    {
      a in threads && threads[a] != []
    }

    /** init */
    method InitThread(t: Thread, env: Env) returns (end: End)
      modifies this
      ensures var r := Init(old(Now()), t, env); Now() == r.state && calls == old(calls) + r.calls && end == r.end
    {
      hide InitFrom, Undo, Track;
      if !t.aspected {
        ConcatEmpty(calls);
        return Done;
      }
      ghost var before := calls;
      var initialized: seq<string>;
      initialized, end := InitLoop(t, env);
      if end == Done {
        TrackLoop(t);
        return;
      }
      ghost var made := InitFrom(Now(), t, 0, env);
      UndoLoop(t, initialized, env);
      assert before + made.1 + Undo(t, made.0, env) == before + (made.1 + Undo(t, made.0, env));
    }

    /** The loop over the initializers; the list of those that have succeeded. */
    method InitLoop(t: Thread, env: Env) returns (initialized: seq<string>, end: End)
      modifies this`calls
      ensures var r := InitFrom(Now(), t, 0, env);
              end == r.2 && r.0 <= |t.aspects| && initialized == t.aspects[..r.0] && calls == old(calls) + r.1
    {
      initialized := [];
      var i := 0;
      InitFromSpec(Now(), t, 0, env);
      ghost var all := InitFrom(Now(), t, 0, env);
      while i < |t.aspects|
        invariant 0 <= i <= |t.aspects| && initialized == t.aspects[..i]
        invariant var r := InitFrom(Now(), t, i, env); all.0 == r.0 && all.2 == r.2 && old(calls) + all.1 == calls + r.1
      {
        var a := t.aspects[i];
        if a !in inifins {
          ConcatEmpty(calls);
          return initialized, Unknown(a);
        }
        ghost var rest := InitFrom(Now(), t, i + 1, env).1;
        assert calls + ([Initialize(a, t)] + rest) == calls + [Initialize(a, t)] + rest;
        calls := calls + [Initialize(a, t)];
        if !env.initOk(i) {
          return initialized, Failed;
        }
        TakeSnoc(t.aspects, i);
        initialized := initialized + [a];
        i := i + 1;
      }
      ConcatEmpty(calls);
      end := Done;
    }

    /** The rollback loop, from the end of the list to its front. */
    method UndoLoop(t: Thread, initialized: seq<string>, env: Env)
      requires |initialized| <= |t.aspects| && initialized == t.aspects[..|initialized|]
      modifies this`calls
      ensures calls == old(calls) + Undo(t, |initialized|, env)
    {
      var n := |initialized|;
      while n > 0
        invariant 0 <= n <= |initialized| && old(calls) + Undo(t, |initialized|, env) == calls + Undo(t, n, env)
      {
        ghost var rest := if env.undoOk(n - 1) then Undo(t, n - 1, env) else [];
        assert calls + ([Call.Finalize(t.aspects[n - 1], t)] + rest) ==
               calls + [Call.Finalize(t.aspects[n - 1], t)] + rest;
        calls := calls + [Call.Finalize(initialized[n - 1], t)];
        n := n - 1;
        if !env.undoOk(n) {
          ConcatEmpty(calls);
          return;
        }
      }
      ConcatEmpty(calls);
    }

    method TrackLoop(t: Thread)
      modifies this`threads
      ensures Now() == Track(old(Now()), t, 0)
    {
      var i := 0;
      while i < |t.aspects|
        invariant 0 <= i <= |t.aspects| && Track(Now(), t, i) == Track(old(Now()), t, 0)
      {
        var a := t.aspects[i];
        threads := threads[a := (if a in threads then threads[a] else []) + [t]];
        i := i + 1;
      }
    }

    /** finalize */
    method Finalize(t: Thread, env: Env) returns (end: End)
      modifies this
      ensures var r := FinalizeThread(old(Now()), t, env);
              Now() == r.state && calls == old(calls) + r.calls && end == r.end
    {
      if !t.aspected {
        ConcatEmpty(calls);
        return Done;
      }
      end := FinalizeLoop(t, env);
      if end == Done {
        UntrackLoop(t);
      }
    }

    method FinalizeLoop(t: Thread, env: Env) returns (end: End)
      modifies this`calls
      ensures var r := FinalizeFrom(Now(), t, 0, env); end == r.1 && calls == old(calls) + r.0
    {
      var i := 0;
      ghost var all := FinalizeFrom(Now(), t, 0, env);
      while i < |t.aspects|
        invariant 0 <= i <= |t.aspects|
        invariant var r := FinalizeFrom(Now(), t, i, env); all.1 == r.1 && old(calls) + all.0 == calls + r.0
      {
        var a := t.aspects[i];
        if a !in inifins {
          ConcatEmpty(calls);
          return Unknown(a);
        }
        ghost var rest := FinalizeFrom(Now(), t, i + 1, env).0;
        assert calls + ([Call.Finalize(a, t)] + rest) == calls + [Call.Finalize(a, t)] + rest;
        calls := calls + [Call.Finalize(a, t)];
        if !env.finOk(i) {
          return Failed;
        }
        i := i + 1;
      }
      ConcatEmpty(calls);
      end := Done;
    }

    method UntrackLoop(t: Thread)
      modifies this`threads
      ensures Now() == Untrack(old(Now()), t, 0)
    {
      var i := 0;
      while i < |t.aspects|
        invariant 0 <= i <= |t.aspects| && Untrack(Now(), t, i) == Untrack(old(Now()), t, 0)
      {
        var a := t.aspects[i];
        threads := threads[a := Without(if a in threads then threads[a] else [], t)];
        i := i + 1;
      }
    }

    /** prepare_finalize */
    method PrepareFinalize(t: Thread, env: Env) returns (ready: bool, end: End)
      ensures (ready, end) == Prepare(Now(), t, env)
    {
      if !t.aspected {
        return true, Done;
      }
      var i := 0;
      while i < |t.aspects|
        invariant 0 <= i <= |t.aspects| && PrepareFrom(Now(), t, 0, env) == PrepareFrom(Now(), t, i, env)
      {
        if t.aspects[i] !in inifins {
          return false, Unknown(t.aspects[i]);
        }
        if !env.prepareOk(i) {
          return false, Done;
        }
        i := i + 1;
      }
      return true, Done;
    }
  }
}
