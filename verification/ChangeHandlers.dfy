/** Change handlers of a configuration (src/libs/config/config.cpp): a multimap from path prefixes to handlers,
    searched entry by entry. */
module ChangeHandlers {
  import opened ScalarText
  import opened Paths
  import opened MapFacts

  /** A handler and the prefix of the paths it monitors, which may be missing. */
  datatype Handler = Handler(id: nat, prefix: Option<string>)

  datatype Entry = Entry(key: string, handler: Handler)

  function KeyOf(h: Handler): string {
    if h.prefix.Some? then h.prefix.value else ""
  }

  /** The order of a std::multimap, and every handler under its own prefix. */
  ghost predicate Ordered(m: seq<Entry>) {
    && Ascending(m)
    && (forall e :: e in m ==> e.key == KeyOf(e.handler))
  }

  /** equal_range, from the first entry that is not smaller to the first that is greater. */
  function Lower(m: seq<Entry>, k: string): (i: nat)
    ensures i <= |m| && forall j :: 0 <= j < i ==> Less(m[j].key, k)
    ensures i < |m| ==> !Less(m[i].key, k)
  {
    if m == [] || !Less(m[0].key, k) then 0 else 1 + Lower(m[1..], k)
  }

  function Upper(m: seq<Entry>, k: string): (i: nat)
    ensures i <= |m| && forall j :: 0 <= j < i ==> !Less(k, m[j].key)
    ensures i < |m| ==> Less(k, m[i].key)
  {
    if m == [] || Less(k, m[0].key) then 0 else 1 + Upper(m[1..], k)
  }

  /** insert: after the entries with the same key. */
  function Insert(m: seq<Entry>, h: Handler): seq<Entry> {
    var i := Upper(m, KeyOf(h));
    m[..i] + [Entry(KeyOf(h), h)] + m[i..]
  }

  /** The entries left when all of a handler are removed. */
  function Purged(m: seq<Entry>, h: Handler): seq<Entry> {
    if m == [] then [] else (if m[0].handler == h then [] else [m[0]]) + Purged(m[1..], h)
  }

  /** The handlers filed under a key, in order. */
  function Under(m: seq<Entry>, k: string): seq<Handler> {
    if m == [] then [] else (if m[0].key == k then [m[0].handler] else []) + Under(m[1..], k)
  }

  /** What find_handlers collects from the j-th entry on: for every entry whose key starts the path, all handlers
      filed under that key. */
  function FoundFrom(m: seq<Entry>, path: string, j: nat): seq<Handler>
    requires j <= |m|
    decreases |m| - j
  {
    if j == |m| then [] else (if m[j].key <= path then Under(m, m[j].key) else []) + FoundFrom(m, path, j + 1)
  }

  function Found(m: seq<Entry>, path: string): seq<Handler> {
    FoundFrom(m, path, 0)
  }

  // ---- Ranges ----

  lemma RangeIsKey(m: seq<Entry>, k: string)
    requires Ordered(m)
    ensures Lower(m, k) <= Upper(m, k)
    ensures forall i :: 0 <= i < |m| ==> (Lower(m, k) <= i < Upper(m, k) <==> m[i].key == k)
  {
    hide Less;
    var lo, hi := Lower(m, k), Upper(m, k);
    LessIrreflexive(k);
    if hi < lo {
      LessTrans(k, m[hi].key, k);
    }
    forall i | 0 <= i < |m| ensures lo <= i < hi <==> m[i].key == k {
      LessTotal(m[i].key, k);
      if i < lo {
        assert Less(m[i].key, k);
      } else if i >= hi {
        if i > hi { NotLessTrans(k, m[hi].key, m[i].key); }
      } else {
        if i > lo { NotLessTrans'(k, m[lo].key, m[i].key); }
      }
    }
  }

  lemma NotLessTrans(k: string, a: string, b: string)
    requires Less(k, a) && !Less(b, a)
    ensures Less(k, b)
  {
    LessTotal(a, b);
    if a != b { LessTrans(k, a, b); }
  }

  lemma NotLessTrans'(k: string, a: string, b: string)
    requires !Less(a, k) && !Less(b, a)
    ensures !Less(b, k)
  {
    if Less(b, k) {
      LessTotal(a, b);
      if a != b { LessTrans(a, b, k); }
    }
  }

  /** Keys do not get smaller along the entries. */
  ghost predicate Ascending(m: seq<Entry>) {
    forall i, j :: 0 <= i < j < |m| ==> !Less(m[j].key, m[i].key)
  }

  lemma AscendingJoin(a: seq<Entry>, e: Entry, b: seq<Entry>)
    requires Ascending(a) && Ascending(b)
    requires forall x :: x in a ==> !Less(e.key, x.key)
    requires forall x :: x in b ==> !Less(x.key, e.key)
    requires forall x, y :: x in a && y in b ==> !Less(y.key, x.key)
    ensures Ascending(a + [e] + b)
  {
    hide Less;
    var r := a + [e] + b;
    forall i, j | 0 <= i < j < |r| ensures !Less(r[j].key, r[i].key) {
      if i < |a| { assert r[i] in a; } else if i > |a| { assert r[i] == b[i - |a| - 1]; }
      if j < |a| { assert r[j] == a[j]; } else if j > |a| { assert r[j] == b[j - |a| - 1] && r[j] in b; }
    }
  }

  lemma UpperSplits(m: seq<Entry>, k: string)
    requires Ascending(m)
    ensures var i := Upper(m, k);
            && (forall x :: x in m[..i] ==> !Less(k, x.key)) && (forall x :: x in m[i..] ==> !Less(x.key, k))
            && (forall x, y :: x in m[..i] && y in m[i..] ==> !Less(y.key, x.key))
  {
    hide Less;
    var i := Upper(m, k);
    forall x | x in m[i..] ensures !Less(x.key, k) {
      var j :| i <= j < |m| && m[j] == x;
      if j > i { NotLessTrans(k, m[i].key, x.key); }
      if Less(x.key, k) { LessTrans(k, x.key, k); }
      LessIrreflexive(k);
    }
    forall x, y | x in m[..i] && y in m[i..] ensures !Less(y.key, x.key) {
      var a :| 0 <= a < i && m[a] == x;
      var b :| i <= b < |m| && m[b] == y;
    }
  }

  lemma InsertOrdered(m: seq<Entry>, h: Handler)
    requires Ordered(m)
    ensures Ordered(Insert(m, h))
    ensures forall e :: e in Insert(m, h) <==> e in m || e == Entry(KeyOf(h), h)
  {
    hide Less, Ascending;
    var i := Upper(m, KeyOf(h));
    assert Ascending(m[..i]) && Ascending(m[i..]) by { AscendingPart(m, i); }
    UpperSplits(m, KeyOf(h));
    AscendingJoin(m[..i], Entry(KeyOf(h), h), m[i..]);
    assert forall e :: e in m <==> e in m[..i] || e in m[i..] by { assert m == m[..i] + m[i..]; }
  }

  lemma {:induction false} UnderConcat(a: seq<Entry>, b: seq<Entry>, k: string)
    ensures Under(a + b, k) == Under(a, k) + Under(b, k)
    decreases |a|
  {
    if a == [] {
      assert a + b == b;
    } else {
      assert (a + b)[0] == a[0] && (a + b)[1..] == a[1..] + b;
      UnderConcat(a[1..], b, k);
      var first := if a[0].key == k then [a[0].handler] else [];
      assert first + (Under(a[1..], k) + Under(b, k)) == first + Under(a[1..], k) + Under(b, k);
    }
  }

  lemma {:induction false} UnderNothing(m: seq<Entry>, k: string)
    requires forall e :: e in m ==> e.key != k
    ensures Under(m, k) == []
  {
    if m != [] {
      assert m[0] in m;
      UnderNothing(m[1..], k);
    }
  }

  /** Among the handlers with its prefix a new one is the last, and the others stay as they are. */
  lemma InsertedLast(m: seq<Entry>, h: Handler, k: string)
    requires Ordered(m)
    ensures Under(Insert(m, h), k) == if k == KeyOf(h) then Under(m, k) + [h] else Under(m, k)
  {
    hide Under, Less, Ascending;
    var i, e := Upper(m, KeyOf(h)), Entry(KeyOf(h), h);
    UnderConcat(m[..i] + [e], m[i..], k);
    UnderConcat(m[..i], [e], k);
    UnderConcat(m[..i], m[i..], k);
    assert m[..i] + m[i..] == m;
    OneUnder(e, k);
    RangeIsKey(m, KeyOf(h));
    if k == KeyOf(h) {
      forall x | x in m[i..] ensures x.key != k {
        var j :| i <= j < |m| && m[j] == x;
      }
      UnderNothing(m[i..], k);
    } else {
      ConcatEmpty(Under(m[..i], k));
    }
  }

  lemma OneUnder(e: Entry, k: string)
    ensures Under([e], k) == if e.key == k then [e.handler] else []
  {
    assert [e][1..] == [] && Under([], k) == [];
  }

  lemma AscendingPart(m: seq<Entry>, i: nat)
    requires Ascending(m) && i <= |m|
    ensures Ascending(m[..i]) && Ascending(m[i..])
  {
    hide Less;
    var b := m[i..];
    assert forall n :: 0 <= n < |b| ==> b[n] == m[i + n];
  }

  lemma {:induction false} PurgedSpec(m: seq<Entry>, h: Handler)
    requires Ordered(m)
    ensures Ordered(Purged(m, h))
    ensures forall e :: e in Purged(m, h) <==> e in m && e.handler != h
    decreases |m|
  {
    if m != [] {
      assert m == [m[0]] + m[1..];
      AscendingPart(m, 1);
      PurgedSpec(m[1..], h);
      ConsOrdered(m[0], m[1..], Purged(m[1..], h));
    }
  }

  lemma ConsOrdered(e: Entry, m: seq<Entry>, r: seq<Entry>)
    requires Ordered([e] + m) && Ordered(r) && forall x :: x in r ==> x in m
    ensures Ordered([e] + r)
  {
    hide Less;
    var t := [e] + m;
    forall x | x in r ensures !Less(x.key, e.key) {
      var n :| 0 <= n < |m| && m[n] == x;
      assert t[n + 1] == x && t[0] == e;
    }
    AscendingJoin([], e, r);
    assert [] + [e] + r == [e] + r && e in t;
  }

  // ---- How often a handler is found ----

  function Count(m: seq<Entry>, k: string): nat {
    if m == [] then 0 else (if m[0].key == k then 1 else 0) + Count(m[1..], k)
  }

  /** How often a handler has been added. */
  function Times(m: seq<Entry>, h: Handler): nat {
    if m == [] then 0 else (if m[0].handler == h then 1 else 0) + Times(m[1..], h)
  }

  lemma {:induction false} UnderTimes(m: seq<Entry>, k: string, h: Handler)
    requires forall e :: e in m ==> e.key == KeyOf(e.handler)
    ensures multiset(Under(m, k))[h] == if k == KeyOf(h) then Times(m, h) else 0
    decreases |m|
  {
    if m != [] {
      assert m[0] in m && forall e :: e in m[1..] ==> e in m;
      UnderTimes(m[1..], k, h);
    }
  }

  lemma JoinTimes(a: seq<Handler>, b: seq<Handler>, h: Handler)
    ensures multiset(a + b)[h] == multiset(a)[h] + multiset(b)[h]
    ensures multiset([] + b)[h] == multiset(b)[h]
  {
    ConcatEmpty(b);
  }

  lemma CountFrom(m: seq<Entry>, j: nat, k: string)
    requires j < |m|
    ensures Count(m[j..], k) == (if m[j].key == k then 1 else 0) + Count(m[j + 1..], k)
  {
    assert m[j..][0] == m[j] && m[j..][1..] == m[j + 1..];
  }

  lemma FoundTimesStep(m: seq<Entry>, path: string, j: nat, h: Handler)
    requires j < |m| && forall e :: e in m ==> e.key == KeyOf(e.handler)
    ensures multiset(FoundFrom(m, path, j))[h] ==
            (if KeyOf(h) <= path && m[j].key == KeyOf(h) then Times(m, h) else 0) +
                multiset(FoundFrom(m, path, j + 1))[h]
  {
    hide Under, Times;
    UnderTimes(m, m[j].key, h);
    JoinTimes(Under(m, m[j].key), FoundFrom(m, path, j + 1), h);
  }

  lemma NoneFound(m: seq<Entry>, path: string, h: Handler)
    ensures FoundFrom(m, path, |m|) == [] && Count(m[|m|..], KeyOf(h)) == 0
  {
  }

  lemma {:induction false} FoundTimesFrom(m: seq<Entry>, path: string, j: nat, h: Handler)
    requires j <= |m| && forall e :: e in m ==> e.key == KeyOf(e.handler)
    ensures multiset(FoundFrom(m, path, j))[h] == if KeyOf(h) <= path then Count(m[j..], KeyOf(h)) * Times(m, h) else 0
    decreases |m| - j
  {
    hide FoundFrom, Times, Count, KeyOf;
    if j < |m| {
      FoundTimesFrom(m, path, j + 1, h);
      FoundTimesStep(m, path, j, h);
      CountFrom(m, j, KeyOf(h));
      OneMore(Count(m[j + 1..], KeyOf(h)), Times(m, h));
    } else {
      NoneFound(m, path, h);
    }
  }

  lemma OneMore(c: nat, t: nat)
    ensures (1 + c) * t == t + c * t
  {
  }

  /** A handler is found exactly if it is registered and its prefix starts the path. It is found, and so notified
      of one change, once for every entry with its prefix, times the number of its own registrations. */
  lemma FoundTimes(m: seq<Entry>, path: string, h: Handler)
    requires Ordered(m)
    ensures multiset(Found(m, path))[h] == if KeyOf(h) <= path then Count(m, KeyOf(h)) * Times(m, h) else 0
  {
    FoundTimesFrom(m, path, 0, h);
    assert m[0..] == m;
  }

  lemma {:induction false} TimesPositive(m: seq<Entry>, h: Handler)
    requires forall e :: e in m ==> e.key == KeyOf(e.handler)
    ensures Times(m, h) > 0 <==> Entry(KeyOf(h), h) in m
    ensures Times(m, h) <= Count(m, KeyOf(h))
    decreases |m|
  {
    if m != [] {
      assert m == [m[0]] + m[1..] && m[0] in m;
      TimesPositive(m[1..], h);
    }
  }

  /** Every change reaches the handlers that monitor its path, and no others. Each of them is told once if and only
      if no other registration has the same prefix. */
  lemma NotifiedOnce(m: seq<Entry>, path: string, h: Handler)
    requires Ordered(m)
    ensures h in Found(m, path) <==> Entry(KeyOf(h), h) in m && KeyOf(h) <= path
    ensures h in Found(m, path) ==> (multiset(Found(m, path))[h] == 1 <==> Count(m, KeyOf(h)) == 1)
  {
    hide Found, Count, Times, Ascending;
    FoundTimes(m, path, h);
    TimesPositive(m, h);
    FoundCounted(m, path, h);
    if Times(m, h) > 0 { Products(Count(m, KeyOf(h)), Times(m, h)); }
  }

  /** A handler without a prefix is told of every change. */
  lemma NoPrefixFindsAll(m: seq<Entry>, path: string, h: Handler)
    requires Ordered(m) && h.prefix.None?
    ensures h in Found(m, path) <==> Entry("", h) in m
  {
    hide Found, Ascending;
    NotifiedOnce(m, path, h);
  }

  lemma FoundCounted(m: seq<Entry>, path: string, h: Handler)
    ensures h in Found(m, path) <==> multiset(Found(m, path))[h] > 0
  {
    hide Found;
  }

  lemma Products(c: nat, t: nat)
    requires 0 < t <= c
    ensures c * t >= c && c * t >= t && (c * t == 1 <==> c == 1)
  {
  }

  // ---- The configuration's list of handlers ----

  class Configuration {
    var handlers: seq<Entry>

    constructor ()
      ensures handlers == [] && Ordered(handlers)
    {
      handlers := [];
    }

    /** add_change_handler */
    method AddChangeHandler(h: Handler)
      requires Ordered(handlers)
      modifies this
      ensures handlers == Insert(old(handlers), h) && Ordered(handlers)
    {
      InsertOrdered(handlers, h);
      var i := Upper(handlers, KeyOf(h));
      handlers := handlers[..i] + [Entry(KeyOf(h), h)] + handlers[i..];
    }

    /** rem_change_handler: search the whole map, and start again after every removal. */
    method RemChangeHandler(h: Handler)
      requires Ordered(handlers)
      modifies this
      ensures handlers == Purged(old(handlers), h) && Ordered(handlers)
    {
      hide Ordered;
      PurgedSpec(handlers, h);
      var changed := true;
      while changed
        invariant Ordered(handlers) && Purged(handlers, h) == Purged(old(handlers), h)
        invariant !changed ==> forall e :: e in handlers ==> e.handler != h
        decreases |handlers|, changed
      {
        changed := RemoveOne(h);
      }
      PurgedNothing(handlers, h);
    }

    /** One search: erases the first entry of the handler, if there is one. */
    method RemoveOne(h: Handler) returns (changed: bool)
      requires Ordered(handlers)
      modifies this
      ensures Ordered(handlers) && Purged(handlers, h) == Purged(old(handlers), h)
      ensures if changed then |handlers| < |old(handlers)|
              else handlers == old(handlers) && forall e :: e in handlers ==> e.handler != h
    {
      hide Purged, Ordered;
      var j := 0;
      while j < |handlers|
        invariant 0 <= j <= |handlers| && handlers == old(handlers)
        invariant forall i :: 0 <= i < j ==> handlers[i].handler != h
      {
        var k := handlers[j].key;
        RangeIsKey(handlers, k);
        var i, hi := Lower(handlers, k), Upper(handlers, k);
        while i < hi
          invariant Lower(handlers, k) <= i <= hi && handlers == old(handlers)
          invariant forall n :: Lower(handlers, k) <= n < i ==> handlers[n].handler != h
        {
          if handlers[i].handler == h {
            RemovedOne(handlers, i);
            handlers := handlers[..i] + handlers[i + 1..];
            return true;
          }
          i := i + 1;
        }
        j := j + 1;
      }
      return false;
    }

    /** find_handlers */
    method FindHandlers(path: string) returns (rv: seq<Handler>)
      requires Ordered(handlers)
      ensures rv == Found(handlers, path)
    {
      hide Under, Ordered;
      rv := [];
      var j := 0;
      ConcatEmpty(FoundFrom(handlers, path, 0));
      while j < |handlers|
        invariant 0 <= j <= |handlers| && Found(handlers, path) == rv + FoundFrom(handlers, path, j)
      {
        FoundStep(handlers, path, j, rv);
        if handlers[j].key <= path {
          var range := CollectRange(handlers[j].key);
          rv := rv + range;
        }
        j := j + 1;
      }
      ConcatEmpty(rv);
    }

    /** The loop over the range of a key. */
    method CollectRange(k: string) returns (rv: seq<Handler>)
      requires Ordered(handlers)
      ensures rv == Under(handlers, k)
    {
      RangeIsKey(handlers, k);
      var lo, hi := Lower(handlers, k), Upper(handlers, k);
      rv := [];
      var i := lo;
      while i < hi
        invariant lo <= i <= hi && |rv| == i - lo && forall n :: 0 <= n < i - lo ==> rv[n] == handlers[lo + n].handler
      {
        rv := rv + [handlers[i].handler];
        i := i + 1;
      }
      UnderRange(handlers, k, lo, hi);
    }
  }

  lemma FoundStep(m: seq<Entry>, path: string, j: nat, rv: seq<Handler>)
    requires j < |m|
    ensures rv + FoundFrom(m, path, j) ==
            (if m[j].key <= path then rv + Under(m, m[j].key) else rv) + FoundFrom(m, path, j + 1)
  {
    var u, rest := Under(m, m[j].key), FoundFrom(m, path, j + 1);
    assert rv + (u + rest) == rv + u + rest && rv + ([] + rest) == rv + rest;
  }

  /** The handlers under a key are those of the entries from lo to hi. */
  lemma {:induction false} UnderRange(m: seq<Entry>, k: string, lo: nat, hi: nat)
    requires lo <= hi <= |m| && forall i :: 0 <= i < |m| ==> (lo <= i < hi <==> m[i].key == k)
    ensures |Under(m, k)| == hi - lo && forall n :: 0 <= n < hi - lo ==> Under(m, k)[n] == m[lo + n].handler
    decreases |m|
  {
    hide Under;
    UnderStep(m, k);
    if m != [] {
      var rest, lo', hi' := m[1..], if lo > 0 then lo - 1 else 0, if hi > 0 then hi - 1 else 0;
      forall i | 0 <= i < |rest| ensures lo' <= i < hi' <==> rest[i].key == k {
        assert rest[i] == m[i + 1];
      }
      UnderRange(rest, k, lo', hi');
      assert m[0].key == k <==> lo == 0 && hi > 0;
      forall n | 0 <= n < hi - lo ensures |Under(m, k)| == hi - lo && Under(m, k)[n] == m[lo + n].handler {
        if m[0].key == k && n > 0 { assert Under(m, k)[n] == Under(rest, k)[n - 1]; }
      }
    }
  }

  lemma UnderStep(m: seq<Entry>, k: string)
    ensures m == [] ==> Under(m, k) == []
    ensures m != [] && m[0].key == k ==> Under(m, k) == [m[0].handler] + Under(m[1..], k)
    ensures m != [] && m[0].key != k ==> Under(m, k) == Under(m[1..], k)
  {
    if m != [] { ConcatEmpty(Under(m[1..], k)); }
  }

  lemma {:induction false} PurgedAppend(a: seq<Entry>, b: seq<Entry>, h: Handler)
    ensures Purged(a + b, h) == Purged(a, h) + Purged(b, h)
    decreases |a|
  {
    if a == [] {
      ConcatEmpty(b);
      ConcatEmpty(Purged(b, h));
    } else {
      assert (a + b)[0] == a[0] && (a + b)[1..] == a[1..] + b;
      PurgedAppend(a[1..], b, h);
    }
  }

  lemma PurgedEntry(e: Entry)
    ensures Purged([e], e.handler) == []
  {
    assert [e][1..] == [];
  }

  lemma RemovedOne(m: seq<Entry>, i: nat)
    requires Ordered(m) && i < |m|
    ensures Ordered(m[..i] + m[i + 1..]) && Purged(m[..i] + m[i + 1..], m[i].handler) == Purged(m, m[i].handler)
  {
    hide Ordered, Purged;
    var h, a, one, b := m[i].handler, m[..i], [m[i]], m[i + 1..];
    PurgedEntry(m[i]);
    assert m == a + (one + b);
    PurgedAppend(a, b, h);
    PurgedAppend(a, one + b, h);
    PurgedAppend(one, b, h);
    ConcatEmpty(Purged(b, h));
    RemovedOrdered(m, i);
  }

  lemma RemovedOrdered(m: seq<Entry>, i: nat)
    requires Ordered(m) && i < |m|
    ensures Ordered(m[..i] + m[i + 1..])
  {
    hide Less;
    var r := m[..i] + m[i + 1..];
    assert forall n :: 0 <= n < |r| ==> r[n] == m[if n < i then n else n + 1];
  }

  lemma {:induction false} PurgedNothing(m: seq<Entry>, h: Handler)
    requires forall e :: e in m ==> e.handler != h
    ensures Purged(m, h) == m
    decreases |m|
  {
    if m != [] {
      assert m == [m[0]] + m[1..] && m[0] in m && forall e :: e in m[1..] ==> e in m;
      PurgedNothing(m[1..], h);
    }
  }
}
