/** Event subscriptions of a blackboard listener (src/libs/blackboard/interface_listener.cpp): a queue of
    requests without duplicates, flushed into the active maps event by event. */
module Listener {
  import opened ScalarText
  import opened Paths
  import opened MapFacts

  /** An interface instance. Types are alphanumeric. */
  datatype Instance = Instance(typeName: string, id: string, serial: nat, writer: bool)

  type Interface = i: Instance | ':' !in i.typeName witness Instance("", "", 0, false)

  /** Interface::uid */
  function Uid(i: Interface): string {
    i.typeName + "::" + i.id
  }

  /** operator== of Interface: the serial is not compared. */
  predicate SameInterface(a: Interface, b: Interface) {
    a.typeName == b.typeName && a.id == b.id
  }

  lemma UidDecides(a: Interface, b: Interface)
    ensures Uid(a) == Uid(b) <==> SameInterface(a, b)
  {
    if Uid(a) == Uid(b) {
      var n, m := |a.typeName|, |b.typeName|;
      assert Uid(a)[n] == ':' && Uid(b)[m] == ':';
      assert forall i :: 0 <= i < n ==> Uid(a)[i] == a.typeName[i];
      assert forall i :: 0 <= i < m ==> Uid(b)[i] == b.typeName[i];
      assert n == m;
      assert Uid(a)[..n] == a.typeName && Uid(b)[..m] == b.typeName;
      assert Uid(a)[n + 2..] == a.id && Uid(b)[m + 2..] == b.id;
    }
  }

  datatype Event = DATA | MESSAGES | READER | WRITER

  /** ListenerRegisterFlag: one bit for each event. */
  type Flag = bv4

  function Bit(k: Event): Flag {
    match k
    case DATA => 1
    case MESSAGES => 2
    case READER => 4
    case WRITER => 8
  }

  const ALL: Flag := 15

  predicate Covers(f: Flag, k: Event) {
    f & Bit(k) != 0
  }

  lemma CoversEither(f: Flag, g: Flag, k: Event)
    ensures Covers(f | g, k) <==> Covers(f, k) || Covers(g, k)
  {
  }

  /** The bits of the flags: 1 for data, 2 for messages, 4 for readers, 8 for writers, 15 for all. */
  lemma FlagBits(k: Event)
    ensures Covers(1, k) <==> k == DATA
    ensures Covers(2, k) <==> k == MESSAGES
    ensures Covers(4, k) <==> k == READER
    ensures Covers(8, k) <==> k == WRITER
    ensures Covers(15, k) && !Covers(0, k)
  {
  }

  lemma CoversAll(k: Event)
    ensures Covers(ALL, k)
  {
  }

  datatype Entry = Entry(kind: Event, op: bool, iface: Interface)

  type InterfaceMap = map<string, Interface>

  datatype Maps = Maps(data: InterfaceMap, messages: InterfaceMap, reader: InterfaceMap, writer: InterfaceMap)

  function Of(m: Maps, k: Event): InterfaceMap {
    match k
    case DATA => m.data
    case MESSAGES => m.messages
    case READER => m.reader
    case WRITER => m.writer
  }

  const NO_MAPS := Maps(map[], map[], map[], map[])

  datatype State = State(queue: seq<Entry>, maps: Maps)

  const START := State([], NO_MAPS)

  // ---- What the operations do ----

  /** The loop that erases the first entry for the same event and interface. */
  function Dedupe(q: seq<Entry>, k: Event, i: Interface): seq<Entry> {
    if q == [] then []
    else if q[0].kind == k && SameInterface(q[0].iface, i) then q[1..]
    else [q[0]] + Dedupe(q[1..], k, i)
  }

  /** bbil_queue_add, or None where it throws. */
  function Request(s: State, e: Entry): Option<State> {
    if e.op && Uid(e.iface) in Of(s.maps, e.kind) then None
    else Some(s.(queue := Dedupe(s.queue, e.kind, e.iface) + [e]))
  }

  function Apply(m: InterfaceMap, e: Entry): InterfaceMap {
    if e.op then m[Uid(e.iface) := e.iface] else m - {Uid(e.iface)}
  }

  /** The active interfaces for an event once the pending requests for it are applied in order. */
  function View(m: InterfaceMap, q: seq<Entry>, k: Event): InterfaceMap
    decreases |q|
  {
    if q == [] then m else View(if q[0].kind == k then Apply(m, q[0]) else m, q[1..], k)
  }

  function ViewOf(s: State, k: Event): InterfaceMap {
    View(Of(s.maps, k), s.queue, k)
  }

  /** The entries for events that the flag does not cover. */
  function Unflagged(q: seq<Entry>, f: Flag): seq<Entry> {
    if q == [] then [] else (if Covers(f, q[0].kind) then [] else [q[0]]) + Unflagged(q[1..], f)
  }

  function FlushedMap(s: State, f: Flag, k: Event): InterfaceMap {
    if Covers(f, k) then ViewOf(s, k) else Of(s.maps, k)
  }

  /** bbil_release_queue */
  function Flush(s: State, f: Flag): State {
    State(Unflagged(s.queue, f),
          Maps(FlushedMap(s, f, DATA), FlushedMap(s, f, MESSAGES), FlushedMap(s, f, READER), FlushedMap(s, f, WRITER)))
  }

  /** The requests that bring back the interfaces of a map, in the order of their names. */
  function Readd(m: InterfaceMap, ks: seq<string>, k: Event): seq<Entry>
    requires forall u :: u in ks ==> u in m
  {
    if ks == [] then [] else [Entry(k, true, m[ks[0]])] + Readd(m, ks[1..], k)
  }

  function ReaddAll(m: InterfaceMap, k: Event): seq<Entry> {
    Readd(m, SortedKeys(m.Keys), k)
  }

  /** A queue with the requests behind it that bring back all active interfaces. */
  function Readded(q: seq<Entry>, m: Maps): seq<Entry> {
    q + ReaddAll(m.data, DATA) + ReaddAll(m.messages, MESSAGES) + ReaddAll(m.reader, READER) +
        ReaddAll(m.writer, WRITER)
  }

  /** bbil_release_maps */
  function Unregister(s: State): State {
    State(Readded(s.queue, s.maps), NO_MAPS)
  }

  // ---- One interface at a time ----

  predicate Concerns(e: Entry, k: Event, u: string) {
    e.kind == k && Uid(e.iface) == u
  }

  /** What is active under a name after the requests of a queue, if v was active before. */
  function Fold(v: Option<Interface>, q: seq<Entry>, k: Event, u: string): Option<Interface>
    decreases |q|
  {
    if q == [] then v
    else Fold(if Concerns(q[0], k, u) then (if q[0].op then Some(q[0].iface) else None) else v, q[1..], k, u)
  }

  function Get(m: InterfaceMap, u: string): Option<Interface> {
    if u in m then Some(m[u]) else None
  }

  lemma {:induction false} ViewAt(m: InterfaceMap, q: seq<Entry>, k: Event, u: string)
    ensures Get(View(m, q, k), u) == Fold(Get(m, u), q, k, u)
    decreases |q|
  {
    if q != [] {
      ViewAt(if q[0].kind == k then Apply(m, q[0]) else m, q[1..], k, u);
    }
  }

  lemma SameMaps(a: InterfaceMap, b: InterfaceMap)
    requires forall u :: Get(a, u) == Get(b, u)
    ensures a == b
  {
    forall u ensures u in a <==> u in b { assert Get(a, u) == Get(b, u); }
    forall u | u in a ensures a[u] == b[u] { assert Get(a, u) == Get(b, u); }
    assert a.Keys == b.Keys;
    MapExt(a, b);
  }

  lemma {:induction false} FoldConcat(v: Option<Interface>, q: seq<Entry>, r: seq<Entry>, k: Event, u: string)
    ensures Fold(v, q + r, k, u) == Fold(Fold(v, q, k, u), r, k, u)
    decreases |q|
  {
    if q == [] {
      ConcatEmpty(r);
    } else {
      assert (q + r)[0] == q[0] && (q + r)[1..] == q[1..] + r;
      FoldConcat(if Concerns(q[0], k, u) then (if q[0].op then Some(q[0].iface) else None) else v, q[1..], r, k, u);
    }
  }

  lemma FoldOne(v: Option<Interface>, e: Entry, k: Event, u: string)
    ensures Fold(v, [e], k, u) == if Concerns(e, k, u) then (if e.op then Some(e.iface) else None) else v
  {
    assert [e][1..] == [];
    assert Fold(v, [e][1..], k, u) == v;
  }

  /** Erasing the duplicate matters only for the interface in question. */
  lemma {:induction false} DedupeFold(v: Option<Interface>, q: seq<Entry>, k: Event, i: Interface, k': Event, u: string)
    requires k' != k || u != Uid(i)
    ensures Fold(v, Dedupe(q, k, i), k', u) == Fold(v, q, k', u)
    decreases |q|
  {
    if q != [] {
      UidDecides(q[0].iface, i);
      if !(q[0].kind == k && SameInterface(q[0].iface, i)) {
        var rest := Dedupe(q[1..], k, i);
        assert ([q[0]] + rest)[0] == q[0] && ([q[0]] + rest)[1..] == rest;
        var v' := if Concerns(q[0], k', u) then (if q[0].op then Some(q[0].iface) else None) else v;
        DedupeFold(v', q[1..], k, i, k', u);
      }
    }
  }

  /** An add or remove changes what is or will be active by exactly that interface. An add fails, changing
      nothing, exactly when the interface is active already. */
  lemma RequestView(s: State, e: Entry, k: Event)
    ensures Request(s, e).None? <==> e.op && Uid(e.iface) in Of(s.maps, e.kind)
    ensures Request(s, e).Some? ==>
              ViewOf(Request(s, e).value, k) == if e.kind == k then Apply(ViewOf(s, k), e) else ViewOf(s, k)
  {
    hide View, Fold, Dedupe, Uid;
    if Request(s, e).Some? {
      var s' := Request(s, e).value;
      var m := Of(s.maps, k);
      var want := if e.kind == k then Apply(ViewOf(s, k), e) else ViewOf(s, k);
      forall u ensures Get(ViewOf(s', k), u) == Get(want, u) {
        ViewAt(m, s.queue, k, u);
        ViewAt(m, s'.queue, k, u);
        FoldConcat(Get(m, u), Dedupe(s.queue, e.kind, e.iface), [e], k, u);
        FoldOne(Fold(Get(m, u), Dedupe(s.queue, e.kind, e.iface), k, u), e, k, u);
        if !Concerns(e, k, u) {
          DedupeFold(Get(m, u), s.queue, e.kind, e.iface, k, u);
        }
      }
      SameMaps(ViewOf(s', k), want);
    }
  }

  // ---- Flushing ----

  lemma {:induction false} UnflaggedView(m: InterfaceMap, q: seq<Entry>, f: Flag, k: Event)
    ensures View(m, Unflagged(q, f), k) == if Covers(f, k) then m else View(m, q, k)
    decreases |q|
  {
    hide Covers;
    if q != [] {
      UnflaggedView(if q[0].kind == k then Apply(m, q[0]) else m, q[1..], f, k);
      UnflaggedView(m, q[1..], f, k);
      var rest := Unflagged(q[1..], f);
      assert ([q[0]] + rest)[0] == q[0] && ([q[0]] + rest)[1..] == rest;
      ConcatEmpty(rest);
    }
  }

  /** Flushing changes no view: it only moves what is pending into the maps. */
  lemma FlushKeepsViews(s: State, f: Flag, k: Event)
    ensures ViewOf(Flush(s, f), k) == ViewOf(s, k)
    ensures Of(Flush(s, f).maps, k) == if Covers(f, k) then ViewOf(s, k) else Of(s.maps, k)
  {
    hide Covers, View, Unflagged;
    UnflaggedView(Of(s.maps, k), s.queue, f, k);
    UnflaggedView(View(Of(s.maps, k), s.queue, k), s.queue, f, k);
  }

  /** Exactly the entries of other events stay, and they keep their order. */
  lemma {:induction false} UnflaggedEntries(q: seq<Entry>, f: Flag)
    ensures forall e :: e in Unflagged(q, f) <==> e in q && !Covers(f, e.kind)
    decreases |q|
  {
    hide Covers;
    if q != [] {
      UnflaggedEntries(q[1..], f);
      assert q == [q[0]] + q[1..];
    }
  }

  lemma {:induction false} UnflaggedKeepsOrder(q: seq<Entry>, r: seq<Entry>, f: Flag)
    ensures Unflagged(q + r, f) == Unflagged(q, f) + Unflagged(r, f)
    decreases |q|
  {
    if q != [] {
      UnflaggedKeepsOrder(q[1..], r, f);
      assert (q + r)[0] == q[0] && (q + r)[1..] == q[1..] + r;
    } else {
      ConcatEmpty(r);
      ConcatEmpty(Unflagged(r, f));
    }
  }

  lemma {:induction false} UnflaggedTwice(q: seq<Entry>, f: Flag, g: Flag)
    ensures Unflagged(Unflagged(q, f), g) == Unflagged(q, f | g)
    decreases |q|
  {
    hide Covers;
    if q != [] {
      UnflaggedTwice(q[1..], f, g);
      CoversEither(f, g, q[0].kind);
      var rest := Unflagged(q[1..], f);
      assert ([q[0]] + rest)[0] == q[0] && ([q[0]] + rest)[1..] == rest;
      ConcatEmpty(rest);
    }
  }

  /** Flushing for some events and then for others is flushing for all of them at once. */
  lemma FlushTwice(s: State, f: Flag, g: Flag)
    ensures Flush(Flush(s, f), g) == Flush(s, f | g)
  {
    hide Covers, View, Unflagged;
    UnflaggedTwice(s.queue, f, g);
    forall k: Event ensures FlushedMap(Flush(s, f), g, k) == FlushedMap(s, f | g, k) {
      CoversEither(f, g, k);
      FlushKeepsViews(s, f, k);
    }
  }

  // ---- Runs ----

  /** A request, a flush, or the end of a registration. */
  datatype Step = Ask(entry: Entry) | Release(flag: Flag) | Forget

  function Do(s: State, step: Step): State {
    match step
    case Ask(e) => if Request(s, e).Some? then Request(s, e).value else s
    case Release(f) => Flush(s, f)
    case Forget => Unregister(s)
  }

  /** The log grows by what is accepted, and at the end of a registration by what was active. */
  function Noted(s: State, log: seq<Entry>, step: Step): seq<Entry> {
    match step
    case Ask(e) => if Request(s, e).Some? then log + [e] else log
    case Release(_) => log
    case Forget => Readded(log, s.maps)
  }

  /** The state and the log of all requests that were accepted. */
  function Run(s: State, log: seq<Entry>, steps: seq<Step>): (State, seq<Entry>)
    decreases |steps|
  {
    if steps == [] then (s, log) else Run(Do(s, steps[0]), Noted(s, log, steps[0]), steps[1..])
  }

  lemma {:induction false} ViewSnoc(m: InterfaceMap, q: seq<Entry>, e: Entry, k: Event)
    ensures View(m, q + [e], k) == if e.kind == k then Apply(View(m, q, k), e) else View(m, q, k)
    decreases |q|
  {
    if q == [] {
      assert [e][1..] == [] && q + [e] == [e];
      assert View(if e.kind == k then Apply(m, e) else m, [], k) == if e.kind == k then Apply(m, e) else m;
    } else {
      assert (q + [e])[0] == q[0] && (q + [e])[1..] == q[1..] + [e];
      ViewSnoc(if q[0].kind == k then Apply(m, q[0]) else m, q[1..], e, k);
    }
  }

  /** What the queue and the maps stand for is what the plain log of accepted requests stands for. */
  ghost predicate Logged(s: State, log: seq<Entry>) {
    forall k: Event :: ViewOf(s, k) == View(map[], log, k)
  }

  /** Every active interface is filed under its own name. */
  ghost predicate Filed(m: Maps) {
    forall k: Event, u :: u in Of(m, k) ==> Uid(Of(m, k)[u]) == u
  }

  function Restrict(m: InterfaceMap, ks: seq<string>): InterfaceMap {
    map u | u in ks && u in m :: m[u]
  }

  lemma RestrictMore(a: InterfaceMap, m: InterfaceMap, u: string, ks: seq<string>)
    requires u in m && forall v :: v in ks ==> v in m
    ensures a[u := m[u]] + Restrict(m, ks) == a + Restrict(m, [u] + ks)
  {
    var l, r := a[u := m[u]] + Restrict(m, ks), a + Restrict(m, [u] + ks);
    assert l.Keys == r.Keys;
    MapExt(l, r);
  }

  lemma {:induction false} ReaddView(a: InterfaceMap, m: InterfaceMap, ks: seq<string>, k: Event, k': Event)
    requires (forall u :: u in ks ==> u in m) && forall u :: u in m ==> Uid(m[u]) == u
    ensures View(a, Readd(m, ks, k), k') == if k' == k then a + Restrict(m, ks) else a
    decreases |ks|
  {
    hide Uid;
    if ks == [] {
      UnionEmpty(a, Restrict(m, ks));
    } else {
      var e, rest := Entry(k, true, m[ks[0]]), Readd(m, ks[1..], k);
      assert ([e] + rest)[0] == e && ([e] + rest)[1..] == rest;
      ReaddView(if k' == k then a[ks[0] := m[ks[0]]] else a, m, ks[1..], k, k');
      assert ks == [ks[0]] + ks[1..];
      RestrictMore(a, m, ks[0], ks[1..]);
    }
  }

  lemma ReaddAllView(a: InterfaceMap, m: InterfaceMap, k: Event, k': Event)
    requires forall u :: u in m ==> Uid(m[u]) == u
    ensures View(a, ReaddAll(m, k), k') == if k' == k then a + m else a
  {
    hide Uid, View, Readd;
    var ks := SortedKeys(m.Keys);
    ReaddView(a, m, ks, k, k');
    var all := Restrict(m, ks);
    assert all.Keys == m.Keys;
    MapExt(all, m);
  }

  lemma {:induction false} ViewConcat(m: InterfaceMap, q: seq<Entry>, r: seq<Entry>, k: Event)
    ensures View(m, q + r, k) == View(View(m, q, k), r, k)
    decreases |q|
  {
    if q == [] {
      ConcatEmpty(r);
    } else {
      assert (q + r)[0] == q[0] && (q + r)[1..] == q[1..] + r;
      ViewConcat(if q[0].kind == k then Apply(m, q[0]) else m, q[1..], r, k);
    }
  }

  lemma FiledMaps(m: Maps)
    requires Filed(m)
    ensures forall u :: u in m.data ==> Uid(m.data[u]) == u
    ensures forall u :: u in m.messages ==> Uid(m.messages[u]) == u
    ensures forall u :: u in m.reader ==> Uid(m.reader[u]) == u
    ensures forall u :: u in m.writer ==> Uid(m.writer[u]) == u
  {
    hide Uid;
    forall k: Event, u | u in Of(m, k) ensures Uid(Of(m, k)[u]) == u { }
    assert Of(m, DATA) == m.data && Of(m, MESSAGES) == m.messages && Of(m, READER) == m.reader
           && Of(m, WRITER) == m.writer;
  }

  /** What was active comes after, and so over, what the queue stands for alone. */
  lemma ReaddedView(q: seq<Entry>, m: Maps, k: Event)
    requires Filed(m)
    ensures View(map[], Readded(q, m), k) == View(map[], q, k) + Of(m, k)
  {
    hide Uid, View, ReaddAll;
    var a, b, c, d := ReaddAll(m.data, DATA), ReaddAll(m.messages, MESSAGES), ReaddAll(m.reader, READER),
        ReaddAll(m.writer, WRITER);
    var v := View(map[], q, k);
    FiledMaps(m);
    ViewConcat(map[], q + a + b + c, d, k);
    ViewConcat(map[], q + a + b, c, k);
    ViewConcat(map[], q + a, b, k);
    ViewConcat(map[], q, a, k);
    var va := if k == DATA then v + m.data else v;
    var vb := if k == MESSAGES then va + m.messages else va;
    var vc := if k == READER then vb + m.reader else vb;
    ReaddAllView(v, m.data, DATA, k);
    ReaddAllView(va, m.messages, MESSAGES, k);
    ReaddAllView(vb, m.reader, READER, k);
    ReaddAllView(vc, m.writer, WRITER, k);
  }

  /** Over the active interfaces it does not matter whether the queue was applied to them before. */
  lemma ActiveOver(m: InterfaceMap, q: seq<Entry>, k: Event)
    ensures View(m, q, k) + m == View(map[], q, k) + m
  {
    hide View, Fold, Uid;
    var l, r := View(m, q, k) + m, View(map[], q, k) + m;
    forall u ensures Get(l, u) == Get(r, u) {
      ViewAt(m, q, k, u);
      ViewAt(map[], q, k, u);
      if u !in m { assert Get(m, u) == Get(map[], u); }
    }
    SameMaps(l, r);
  }

  lemma StepRefinesLog(s: State, log: seq<Entry>, step: Step)
    requires Logged(s, log) && Filed(s.maps)
    ensures Logged(Do(s, step), Noted(s, log, step))
  {
    hide View, Apply, Dedupe, Covers, Readded, Filed;
    forall k: Event ensures ViewOf(Do(s, step), k) == View(map[], Noted(s, log, step), k) {
      assert ViewOf(s, k) == View(map[], log, k);
      match step
      case Ask(e) =>
        RequestView(s, e, k);
        ViewSnoc(map[], log, e, k);
      case Release(f) => FlushKeepsViews(s, f, k);
      case Forget =>
        ReaddedView(s.queue, s.maps, k);
        ReaddedView(log, s.maps, k);
        ActiveOver(Of(s.maps, k), s.queue, k);
        assert Of(NO_MAPS, k) == map[];
    }
  }

  lemma {:induction false} ViewFiled(m: InterfaceMap, q: seq<Entry>, k: Event)
    requires forall u :: u in m ==> Uid(m[u]) == u
    ensures forall u :: u in View(m, q, k) ==> Uid(View(m, q, k)[u]) == u
    decreases |q|
  {
    hide Uid;
    if q != [] {
      ViewFiled(if q[0].kind == k then Apply(m, q[0]) else m, q[1..], k);
    }
  }

  lemma FlushFiled(s: State, f: Flag)
    requires Filed(s.maps)
    ensures Filed(Flush(s, f).maps)
  {
    hide Uid, Covers, View, Unflagged;
    forall k: Event ensures Of(Flush(s, f).maps, k) == FlushedMap(s, f, k) { }
    forall k: Event, u | u in Of(Flush(s, f).maps, k) ensures Uid(Of(Flush(s, f).maps, k)[u]) == u {
      ViewFiled(Of(s.maps, k), s.queue, k);
    }
  }

  lemma StepFiled(s: State, step: Step)
    requires Filed(s.maps)
    ensures Filed(Do(s, step).maps)
  {
    hide Filed, Readded;
    match step
    case Ask(e) =>
    case Release(f) => FlushFiled(s, f);
    case Forget => NoMapsFiled();
  }

  lemma NoMapsFiled()
    ensures Filed(NO_MAPS)
  {
    forall k: Event ensures Of(NO_MAPS, k) == map[] { }
  }

  /** Over every run of requests, flushes and ends of a registration, the deduplicated queue together with the maps
      refines the log of all accepted requests, in which the end of a registration asks again for what was active. */
  lemma {:induction false} RunRefinesLog(s: State, log: seq<Entry>, steps: seq<Step>)
    requires Logged(s, log) && Filed(s.maps)
    ensures Logged(Run(s, log, steps).0, Run(s, log, steps).1) && Filed(Run(s, log, steps).0.maps)
    decreases |steps|
  {
    hide Logged, Do, Noted, Filed;
    if steps != [] {
      StepRefinesLog(s, log, steps[0]);
      StepFiled(s, steps[0]);
      RunRefinesLog(Do(s, steps[0]), Noted(s, log, steps[0]), steps[1..]);
    }
  }

  /** At most one entry for an event and an interface, no pending add of an active interface, and every active
      interface is filed under its own name. */
  ghost predicate Tidy(s: State) {
    && Single(s.queue)
    && (forall e :: e in s.queue && e.op ==> Uid(e.iface) !in Of(s.maps, e.kind))
    && Filed(s.maps)
  }

  ghost predicate Single(q: seq<Entry>) {
    forall i, j :: 0 <= i < j < |q| ==> !Concerns(q[i], q[j].kind, Uid(q[j].iface))
  }

  lemma {:induction false} DedupeSpec(q: seq<Entry>, k: Event, i: Interface)
    requires Single(q)
    ensures Single(Dedupe(q, k, i))
    ensures forall e :: e in Dedupe(q, k, i) <==> e in q && !Concerns(e, k, Uid(i))
    decreases |q|
  {
    hide Uid;
    if q != [] {
      UidDecides(q[0].iface, i);
      assert q == [q[0]] + q[1..];
      if q[0].kind == k && SameInterface(q[0].iface, i) {
        forall e | e in q[1..] ensures !Concerns(e, k, Uid(i)) {
          var j :| 0 <= j < |q[1..]| && q[1..][j] == e;
          assert e == q[j + 1];
        }
      } else {
        DedupeSpec(q[1..], k, i);
        SingleCons(q[0], q[1..], Dedupe(q[1..], k, i));
      }
    }
  }

  lemma SingleCons(e: Entry, q: seq<Entry>, r: seq<Entry>)
    requires Single([e] + q) && Single(r) && forall x :: x in r ==> x in q
    ensures Single([e] + r)
  {
    hide Uid;
    var s := [e] + r;
    forall i, j | 0 <= i < j < |s| ensures !Concerns(s[i], s[j].kind, Uid(s[j].iface)) {
      if i == 0 {
        assert s[j] in r;
        var n :| 0 <= n < |q| && q[n] == s[j];
        assert ([e] + q)[0] == e && ([e] + q)[n + 1] == s[j];
      }
    }
  }

  lemma SingleSnoc(q: seq<Entry>, e: Entry)
    requires Single(q) && forall x :: x in q ==> !Concerns(x, e.kind, Uid(e.iface))
    ensures Single(q + [e])
  {
    hide Uid;
  }

  lemma RequestTidy(s: State, e: Entry)
    requires Tidy(s) && Request(s, e).Some?
    ensures Tidy(Request(s, e).value)
  {
    hide Uid;
    DedupeSpec(s.queue, e.kind, e.iface);
    SingleSnoc(Dedupe(s.queue, e.kind, e.iface), e);
  }

  lemma {:induction false} UnflaggedSingle(q: seq<Entry>, f: Flag)
    requires Single(q)
    ensures Single(Unflagged(q, f))
    decreases |q|
  {
    hide Uid, Covers;
    if q != [] {
      assert q == [q[0]] + q[1..];
      UnflaggedSingle(q[1..], f);
      UnflaggedEntries(q[1..], f);
      SingleCons(q[0], q[1..], Unflagged(q[1..], f));
      ConcatEmpty(Unflagged(q[1..], f));
    }
  }

  lemma FlushTidy(s: State, f: Flag)
    requires Tidy(s)
    ensures Tidy(Flush(s, f))
  {
    hide Uid, Covers, View, Unflagged, Filed;
    UnflaggedSingle(s.queue, f);
    UnflaggedEntries(s.queue, f);
    forall k: Event ensures Of(Flush(s, f).maps, k) == FlushedMap(s, f, k) { }
    FlushFiled(s, f);
  }

  /** Over every run of requests and flushes the state stays tidy. */
  lemma {:induction false} RunTidy(s: State, log: seq<Entry>, steps: seq<Step>)
    requires Tidy(s) && forall step :: step in steps ==> !step.Forget?
    ensures Tidy(Run(s, log, steps).0)
    decreases |steps|
  {
    hide Tidy, Request, Flush, Readded;
    if steps != [] {
      assert steps[0] in steps && forall step :: step in steps[1..] ==> step in steps;
      match steps[0] {
        case Ask(e) => if Request(s, e).Some? { RequestTidy(s, e); }
        case Release(f) => FlushTidy(s, f);
      }
      RunTidy(Do(s, steps[0]), Noted(s, log, steps[0]), steps[1..]);
    }
  }

  /** A full flush makes the state tidy again after the end of a registration, which may leave a request to remove
      an interface and one to add it in the queue. */
  lemma FullFlushTidy(s: State)
    requires Filed(s.maps)
    ensures Tidy(Flush(s, ALL)) && Flush(s, ALL).queue == []
  {
    hide Uid, Covers, View, Unflagged, Filed, Of;
    FlushFiled(s, ALL);
    NothingUnflagged(s.queue);
  }

  lemma {:induction false} NothingUnflagged(q: seq<Entry>)
    ensures Unflagged(q, ALL) == []
    decreases |q|
  {
    if q != [] {
      CoversAll(q[0].kind);
      NothingUnflagged(q[1..]);
    }
  }

  /** From an empty listener on, whatever is requested, flushed and unregistered: queue and maps stand for the log;
      after a full flush nothing is pending. Without ends of a registration, at most one entry is queued for an event
      and an interface at any time, and none asks for an active one. */
  lemma FromStart(steps: seq<Step>)
    ensures Logged(Run(START, [], steps).0, Run(START, [], steps).1)
    ensures Tidy(Flush(Run(START, [], steps).0, ALL))
    ensures (forall step :: step in steps ==> !step.Forget?) ==> Tidy(Run(START, [], steps).0)
  {
    hide Filed;
    assert forall k: Event :: Of(NO_MAPS, k) == map[];
    NoMapsFiled();
    RunRefinesLog(START, [], steps);
    FullFlushTidy(Run(START, [], steps).0);
    if forall step :: step in steps ==> !step.Forget? { RunTidy(START, [], steps); }
  }

  // ---- Unregistering and registering again ----

  /** After unregistering all maps are empty, and every interface that was active is asked for again, after
      whatever was pending. */
  lemma UnregisterView(s: State, k: Event)
    requires Filed(s.maps)
    ensures Of(Unregister(s).maps, k) == map[]
    ensures ViewOf(Unregister(s), k) == View(map[], s.queue, k) + Of(s.maps, k)
  {
    hide Uid, View, Readded, Filed;
    ReaddedView(s.queue, s.maps, k);
  }

  /** A pending request to remove an interface that is active. */
  ghost predicate RemovalPending(s: State, k: Event) {
    exists e :: e in s.queue && e.kind == k && !e.op && Uid(e.iface) in Of(s.maps, k)
  }

  lemma {:induction false} FoldUntouched(v: Option<Interface>, q: seq<Entry>, k: Event, u: string)
    requires forall e :: e in q ==> !Concerns(e, k, u)
    ensures Fold(v, q, k, u) == v
    decreases |q|
  {
    if q != [] {
      assert q[0] in q;
      FoldUntouched(v, q[1..], k, u);
    }
  }

  lemma {:induction false} FoldTouched(v: Option<Interface>, q: seq<Entry>, k: Event, u: string, e: Entry)
    requires Single(q) && e in q && Concerns(e, k, u)
    ensures Fold(v, q, k, u) == if e.op then Some(e.iface) else None
    decreases |q|
  {
    hide Uid;
    var rest := q[1..];
    if q[0] == e {
      forall x | x in rest ensures !Concerns(x, k, u) {
        var j :| 0 <= j < |rest| && rest[j] == x;
        assert x == q[j + 1];
      }
      FoldUntouched(if e.op then Some(e.iface) else None, rest, k, u);
    } else {
      var j :| 0 < j < |q| && q[j] == e;
      assert !Concerns(q[0], k, u) && rest[j - 1] == e;
      FoldTouched(v, rest, k, u, e);
    }
  }

  lemma KeptView(s: State, k: Event)
    requires Tidy(s) && !RemovalPending(s, k)
    ensures View(map[], s.queue, k) + Of(s.maps, k) == ViewOf(s, k)
  {
    hide Uid, View, Fold;
    var m := Of(s.maps, k);
    var l := View(map[], s.queue, k) + m;
    forall u ensures Get(l, u) == Get(ViewOf(s, k), u) {
      ViewAt(map[], s.queue, k, u);
      ViewAt(m, s.queue, k, u);
      if u in m {
        forall e | e in s.queue ensures !Concerns(e, k, u) { assert e.op ==> Uid(e.iface) !in Of(s.maps, e.kind); }
        FoldUntouched(Get(m, u), s.queue, k, u);
      } else {
        assert Get(m, u) == Get(map[], u);
      }
    }
    SameMaps(l, ViewOf(s, k));
  }

  lemma LostView(s: State, k: Event)
    requires Tidy(s) && RemovalPending(s, k)
    ensures View(map[], s.queue, k) + Of(s.maps, k) != ViewOf(s, k)
  {
    hide Uid, View, Fold;
    var e :| e in s.queue && e.kind == k && !e.op && Uid(e.iface) in Of(s.maps, k);
    var m, u := Of(s.maps, k), Uid(e.iface);
    ViewAt(m, s.queue, k, u);
    FoldTouched(Get(m, u), s.queue, k, u, e);
    assert u in View(map[], s.queue, k) + m && u !in ViewOf(s, k);
  }

  lemma TidyFiled(s: State)
    requires Tidy(s)
    ensures Filed(s.maps)
  {
  }

  /** Unregistering, registering again and flushing everything restores what was or would become active for an
      event exactly if no removal of an active interface was pending; such a removal is undone. */
  lemma ReregisterRestores(s: State, k: Event)
    requires Tidy(s)
    ensures Of(Flush(Unregister(s), ALL).maps, k) == ViewOf(s, k) <==> !RemovalPending(s, k)
  {
    hide ViewOf, View, Tidy, RemovalPending, Unregister;
    CoversAll(k);
    FlushKeepsViews(Unregister(s), ALL, k);
    TidyFiled(s);
    UnregisterView(s, k);
    if RemovalPending(s, k) { LostView(s, k); } else { KeptView(s, k); }
  }

  lemma OneEntry(m: InterfaceMap, e: Entry)
    ensures View(m, [e], e.kind) == Apply(m, e)
  {
    assert [e][1..] == [];
    assert View(Apply(m, e), [], e.kind) == Apply(m, e);
  }

  /** An interface was active and its removal asked for, when the registration ended: it is active again. */
  lemma RemovalIsUndone()
    ensures var i: Interface := Instance("T", "x", 0, false);
            var s := State([Entry(DATA, false, i)], Maps(map[Uid(i) := i], map[], map[], map[]));
            && s == Run(START, [], [Ask(Entry(DATA, true, i)), Release(ALL), Ask(Entry(DATA, false, i))]).0
            && ViewOf(s, DATA) == map[] && Of(Flush(Unregister(s), ALL).maps, DATA) == map[Uid(i) := i]
  {
    hide Uid, ViewOf, View, Covers, Readded;
    var i: Interface := Instance("T", "x", 0, false);
    var m: InterfaceMap := map[Uid(i) := i];
    var remove, s := Entry(DATA, false, i), State([Entry(DATA, false, i)], Maps(m, map[], map[], map[]));
    AddedAndRemoved(i);
    OneEntry(m, remove);
    OneEntry(map[], remove);
    assert ViewOf(s, DATA) == m - {Uid(i)} by { assert Of(s.maps, DATA) == m; ViewOfIs(s, DATA); }
    CoversAll(DATA);
    OneFiled(i);
    UnregisterView(s, DATA);
    FlushKeepsViews(Unregister(s), ALL, DATA);
  }

  lemma ViewOfIs(s: State, k: Event)
    ensures ViewOf(s, k) == View(Of(s.maps, k), s.queue, k)
  {
  }

  lemma OneFiled(i: Interface)
    ensures Filed(Maps(map[Uid(i) := i], map[], map[], map[]))
  {
    hide Uid;
  }

  lemma AddedAndRemoved(i: Interface)
    ensures Run(START, [], [Ask(Entry(DATA, true, i)), Release(ALL), Ask(Entry(DATA, false, i))]).0 ==
            State([Entry(DATA, false, i)], Maps(map[Uid(i) := i], map[], map[], map[]))
  {
    hide Uid, View, Unflagged;
    var add, remove := Entry(DATA, true, i), Entry(DATA, false, i);
    var s1 := State([add], NO_MAPS);
    assert [] + [add] == [add] && [] + [remove] == [remove];
    FlushedOne(add, i);
    var steps := [Ask(add), Release(ALL), Ask(remove)];
    assert steps[1..] == [Release(ALL), Ask(remove)] && steps[1..][1..] == [Ask(remove)] && [Ask(remove)][1..] == [];
    var s3 := State([remove], Maps(map[Uid(i) := i], map[], map[], map[]));
    assert Do(START, Ask(add)) == s1;
    assert Do(Flush(s1, ALL), Ask(remove)) == s3;
    assert Run(START, [], steps) == Run(s1, [add], [Release(ALL), Ask(remove)]);
    assert Run(s1, [add], [Release(ALL), Ask(remove)]) == Run(Flush(s1, ALL), [add], [Ask(remove)]);
    assert Run(Flush(s1, ALL), [add], [Ask(remove)]).0 == s3;
  }

  lemma FlushedOne(add: Entry, i: Interface)
    requires add == Entry(DATA, true, i)
    ensures Flush(State([add], NO_MAPS), ALL) == State([], Maps(map[Uid(i) := i], map[], map[], map[]))
  {
    hide Uid;
    var s := State([add], NO_MAPS);
    assert [add][1..] == [];
    forall k: Event ensures FlushedMap(s, ALL, k) == if k == DATA then map[Uid(i) := i] else map[] {
      CoversAll(k);
      assert View(Of(NO_MAPS, k), [add], k) == View(if k == DATA then map[Uid(i) := i] else map[], [], k);
    }
    CoversAll(DATA);
    assert Unflagged([add], ALL) == Unflagged([], ALL);
  }

  // ---- The listener ----

  class BlackBoardInterfaceListener {
    var queue: seq<Entry>
    var data: InterfaceMap
    var messages: InterfaceMap
    var reader: InterfaceMap
    var writer: InterfaceMap

    function Now(): State
      reads this
    {
      State(queue, Maps(data, messages, reader, writer))
    }

    constructor ()
      ensures Now() == START
    {
      queue, data, messages, reader, writer := [], map[], map[], map[], map[];
    }

    /** bbil_queue_add; false where it throws. */
    method QueueAdd(k: Event, op: bool, notIn: InterfaceMap, iface: Interface) returns (ok: bool)
      requires notIn == Of(Now().maps, k)
      modifies this
      ensures var r := Request(old(Now()), Entry(k, op, iface));
              if ok then r == Some(Now()) else r == None && Now() == old(Now())
    {
      hide Uid, SameInterface;
      if op && Uid(iface) in notIn {
        return false;
      }
      var i := 0;
      assert queue[..0] + Dedupe(queue[0..], k, iface) == Dedupe(queue, k, iface) by {
        TakeAll(queue);
        assert queue[0..] == queue;
      }
      while i < |queue|
        invariant 0 <= i <= |queue| && Now() == old(Now())
        invariant Dedupe(queue, k, iface) == queue[..i] + Dedupe(queue[i..], k, iface)
      {
        DedupeStep(queue, i, k, iface);
        if queue[i].kind == k && SameInterface(queue[i].iface, iface) {
          queue := queue[..i] + queue[i + 1..] + [Entry(k, op, iface)];
          return true;
        }
        i := i + 1;
      }
      TakeAll(queue);
      assert queue[|queue|..] == [];
      ConcatEmpty(queue);
      queue := queue + [Entry(k, op, iface)];
      ok := true;
    }

    method AddDataInterface(iface: Interface) returns (ok: bool)
      modifies this
      ensures ok <==> Request(old(Now()), Entry(DATA, true, iface)).Some?
      ensures Now() == Do(old(Now()), Ask(Entry(DATA, true, iface)))
    {
      ok := QueueAdd(DATA, true, data, iface);
    }

    /** Messages can be watched only on a writing instance. */
    method AddMessageInterface(iface: Interface) returns (ok: bool)
      modifies this
      ensures ok <==> iface.writer && Request(old(Now()), Entry(MESSAGES, true, iface)).Some?
      ensures Now() == if iface.writer then Do(old(Now()), Ask(Entry(MESSAGES, true, iface))) else old(Now())
    {
      if !iface.writer {
        return false;
      }
      ok := QueueAdd(MESSAGES, true, messages, iface);
    }

    method RemoveDataInterface(iface: Interface) returns (ok: bool)
      modifies this
      ensures ok && Now() == Do(old(Now()), Ask(Entry(DATA, false, iface)))
    {
      ok := QueueAdd(DATA, false, data, iface);
    }

    /** One entry of the queue taken into the map for its event. */
    method Settle(e: Entry)
      modifies this
      ensures queue == old(queue)
      ensures forall k: Event ::
                Of(Now().maps, k) == if e.kind == k then Apply(Of(old(Now()).maps, k), e) else Of(old(Now()).maps, k)
    {
      hide Uid;
      match e.kind {
        case DATA => data := if e.op then data[Uid(e.iface) := e.iface] else data - {Uid(e.iface)};
        case MESSAGES => messages := if e.op then messages[Uid(e.iface) := e.iface] else messages - {Uid(e.iface)};
        case READER => reader := if e.op then reader[Uid(e.iface) := e.iface] else reader - {Uid(e.iface)};
        case WRITER => writer := if e.op then writer[Uid(e.iface) := e.iface] else writer - {Uid(e.iface)};
      }
    }

    /** bbil_release_queue */
    method ReleaseQueue(f: Flag)
      modifies this
      ensures Now() == Flush(old(Now()), f)
    {
      hide Uid, Covers, Unflagged, View, Apply;
      ghost var s := Now();
      var i := 0;
      FlushStart(s, f);
      while i < |queue|
        invariant 0 <= i <= |queue| && FlushTo(s, f, Now(), i)
        decreases |queue| - i
      {
        var e := queue[i];
        ghost var before := Now();
        FlushStep(s, f, before, i);
        if Covers(f, e.kind) {
          Settle(e);
          queue := queue[..i] + queue[i + 1..];
          FlushTaken(s, f, before, Now(), i);
        } else {
          i := i + 1;
        }
      }
      FlushEnd(s, f, Now());
    }

    /** bbil_release_maps */
    method ReleaseMaps()
      modifies this
      ensures Now() == Unregister(old(Now()))
    {
      hide ReaddAll;
      queue := PushAll(queue, data, DATA);
      queue := PushAll(queue, messages, MESSAGES);
      queue := PushAll(queue, reader, READER);
      queue := PushAll(queue, writer, WRITER);
      data, messages, reader, writer := map[], map[], map[], map[];
    }

    /** The loop over one of the maps. */
    static method PushAll(q: seq<Entry>, m: InterfaceMap, k: Event) returns (r: seq<Entry>)
      ensures r == q + ReaddAll(m, k)
    {
      hide SortedKeys;
      var ks := SortedKeys(m.Keys);
      r := q;
      var i := 0;
      assert ks[0..] == ks;
      while i < |ks|
        invariant 0 <= i <= |ks| && r + Readd(m, ks[i..], k) == q + ReaddAll(m, k)
      {
        ReaddStep(r, m, ks, i, k);
        r := r + [Entry(k, true, m[ks[i]])];
        i := i + 1;
      }
      ConcatEmpty(r);
    }
  }

  lemma ReaddStep(r: seq<Entry>, m: InterfaceMap, ks: seq<string>, i: nat, k: Event)
    requires i < |ks| && forall u :: u in ks ==> u in m
    ensures r + Readd(m, ks[i..], k) == r + [Entry(k, true, m[ks[i]])] + Readd(m, ks[i + 1..], k)
  {
    assert ks[i..][0] == ks[i] && ks[i..][1..] == ks[i + 1..];
    var rest := Readd(m, ks[i + 1..], k);
    assert r + ([Entry(k, true, m[ks[i]])] + rest) == r + [Entry(k, true, m[ks[i]])] + rest;
  }

  lemma DedupeStep(q: seq<Entry>, i: nat, k: Event, iface: Interface)
    requires i < |q| && Dedupe(q, k, iface) == q[..i] + Dedupe(q[i..], k, iface)
    ensures Dedupe(q, k, iface) ==
            if q[i].kind == k && SameInterface(q[i].iface, iface) then q[..i] + q[i + 1..]
            else q[..i + 1] + Dedupe(q[i + 1..], k, iface)
  {
    assert q[i..][0] == q[i] && q[i..][1..] == q[i + 1..];
    TakeSnoc(q, i);
    var rest := Dedupe(q[i + 1..], k, iface);
    assert q[..i] + ([q[i]] + rest) == q[..i] + [q[i]] + rest;
  }

  /** The flush loop has passed over i entries that stay; what it still has to do leads to the flushed state. */
  ghost predicate FlushTo(s: State, f: Flag, now: State, i: nat) {
    && i <= |now.queue|
    && Unflagged(s.queue, f) == now.queue[..i] + Unflagged(now.queue[i..], f)
    && forall k: Event ::
         FlushedMap(s, f, k) == if Covers(f, k) then View(Of(now.maps, k), now.queue[i..], k) else Of(now.maps, k)
  }

  lemma FlushStart(s: State, f: Flag)
    ensures FlushTo(s, f, s, 0)
  {
    assert s.queue[0..] == s.queue && s.queue[..0] == [];
    ConcatEmpty(Unflagged(s.queue, f));
  }

  lemma FlushStep(s: State, f: Flag, now: State, i: nat)
    requires i < |now.queue| && FlushTo(s, f, now, i)
    ensures !Covers(f, now.queue[i].kind) ==> FlushTo(s, f, now, i + 1)
  {
    hide Covers, Apply;
    var q := now.queue;
    assert q[i..][0] == q[i] && q[i..][1..] == q[i + 1..];
    TakeSnoc(q, i);
    var rest := Unflagged(q[i + 1..], f);
    assert q[..i] + ([q[i]] + rest) == q[..i] + [q[i]] + rest;
  }

  lemma FlushTaken(s: State, f: Flag, now: State, then': State, i: nat)
    requires i < |now.queue| && FlushTo(s, f, now, i) && Covers(f, now.queue[i].kind)
    requires then'.queue == now.queue[..i] + now.queue[i + 1..]
    requires forall k: Event ::
               Of(then'.maps, k) ==
               if now.queue[i].kind == k then Apply(Of(now.maps, k), now.queue[i]) else Of(now.maps, k)
    ensures FlushTo(s, f, then', i)
  {
    hide Covers, Apply;
    var q := now.queue;
    assert q[i..][0] == q[i] && q[i..][1..] == q[i + 1..];
    assert then'.queue[..i] == q[..i] && then'.queue[i..] == q[i + 1..];
    ConcatEmpty(Unflagged(q[i + 1..], f));
  }

  lemma FlushEnd(s: State, f: Flag, now: State)
    requires FlushTo(s, f, now, |now.queue|)
    ensures now == Flush(s, f)
  {
    TakeAll(now.queue);
    assert now.queue[|now.queue|..] == [];
    ConcatEmpty(now.queue);
    forall k: Event ensures Of(now.maps, k) == FlushedMap(s, f, k) { }
    assert now.maps == Maps(Of(now.maps, DATA), Of(now.maps, MESSAGES), Of(now.maps, READER), Of(now.maps, WRITER));
  }
}
