/** The schemas that build on a given one (etc/restapi-gen/restapi-gen.py): a recursion over a shared set of
    names, for any graph of references, with or without cycles. */
module SchemaClosure {
  import opened ScalarText
  import opened Paths

  /** A schema: its name and, if it has a list allOf, the reference that each item of it makes, if any. */
  datatype Schema = Schema(name: string, allOf: Option<seq<Option<string>>>)

  /** value.split('/') */
  function Parts(s: string): (r: seq<string>)
    ensures |r| > 0
    decreases |s|
  {
    var i := FirstSlash(s);
    if i < |s| then [s[..i]] + Parts(s[i + 1..]) else [s]
  }

  /** filter_reftype */
  function RefType(value: string): string {
    var parts := Parts(value);
    if |parts| != 4 then value
    else if parts[0] == "#" && parts[1] == "components" && parts[2] == "schemas" then parts[3]
    else value
  }

  const REFERENCE := "#/components/schemas/"

  /** A reference to a schema of the same document. */
  ghost predicate IsReference(v: string) {
    exists n :: '/' !in n && v == REFERENCE + n
  }

  lemma PartsFirst(k: string, rest: string)
    requires '/' !in k
    ensures Parts(k + ("/" + rest)) == [k] + Parts(rest)
    ensures Parts(k) == [k]
  {
    var s := k + ("/" + rest);
    FirstSlashAfterKey(k, "/" + rest);
    assert s[..|k|] == k && s[|k| + 1..] == rest;
    FirstSlashAfterKey(k, "");
    assert k + "" == k;
  }

  /** The parts with slashes between them. */
  function Whole(parts: seq<string>): string
    requires parts != []
  {
    if |parts| == 1 then parts[0] else parts[0] + ("/" + Whole(parts[1..]))
  }

  lemma {:induction false} PartsBack(s: string)
    ensures Whole(Parts(s)) == s && forall i :: 0 <= i < |Parts(s)| ==> '/' !in Parts(s)[i]
    decreases |s|
  {
    var i := FirstSlash(s);
    if i < |s| {
      PartsBack(s[i + 1..]);
      var r := Parts(s[i + 1..]);
      assert s == s[..i] + ("/" + s[i + 1..]) && Parts(s)[1..] == r;
    }
  }

  lemma WholeOfFour(p: seq<string>)
    requires |p| == 4 && p[0] == "#" && p[1] == "components" && p[2] == "schemas"
    ensures Whole(p) == REFERENCE + p[3]
  {
    hide REFERENCE;
    var q, r, s := p[1..], p[2..], p[3..];
    assert q[1..] == r && r[1..] == s && s == [p[3]];
    assert Whole(s) == p[3];
    assert Whole(r) == r[0] + ("/" + Whole(s)) && r[0] == "schemas";
    assert Whole(q) == q[0] + ("/" + Whole(r)) && q[0] == "components";
    ReferenceText(p[3]);
  }

  lemma ReferenceText(n: string)
    ensures REFERENCE + n == "#" + ("/" + ("components" + ("/" + ("schemas" + ("/" + n)))))
  {
    assert REFERENCE == "#" + ("/" + ("components" + ("/" + ("schemas" + "/"))));
    Regrouped("#", "/", "components", "/", "schemas", "/", n);
  }

  lemma Regrouped(a: string, b: string, c: string, d: string, e: string, f: string, n: string)
    ensures a + (b + (c + (d + (e + f)))) + n == a + (b + (c + (d + (e + (f + n)))))
  {
  }

  lemma PartsOfReference(n: string)
    requires '/' !in n
    ensures Parts(REFERENCE + n) == ["#", "components", "schemas", n]
  {
    hide Parts, REFERENCE;
    PartsFirst("schemas", n);
    PartsFirst("components", "schemas" + ("/" + n));
    PartsFirst("#", "components" + ("/" + ("schemas" + ("/" + n))));
    PartsFirst(n, "");
    ReferenceText(n);
  }

  /** What a reference is reduced to: the name of the schema for a reference to one of the same document, and the text
      itself for any other. */
  lemma RefTypeReads(v: string)
    ensures forall n :: '/' !in n ==> RefType(REFERENCE + n) == n
    ensures !IsReference(v) ==> RefType(v) == v
  {
    hide Parts, REFERENCE, Whole;
    forall n | '/' !in n ensures RefType(REFERENCE + n) == n { PartsOfReference(n); }
    var p := Parts(v);
    PartsBack(v);
    if |p| == 4 && p[0] == "#" && p[1] == "components" && p[2] == "schemas" {
      WholeOfFour(p);
      assert IsReference(v);
    }
  }

  function Names(schemas: seq<Schema>): (s: set<string>)
    ensures forall i :: 0 <= i < |schemas| ==> schemas[i].name in s
    ensures forall n :: n in s ==> exists i :: 0 <= i < |schemas| && schemas[i].name == n
  {
    set i | 0 <= i < |schemas| :: schemas[i].name
  }

  /** The schema has an allOf reference to the type: "#/components/schemas/" and its name, or its name alone. */
  ghost predicate Mentions(s: Schema, t: string) {
    && s.allOf.Some?
    && (('/' !in t && Some(REFERENCE + t) in s.allOf.value)
        || (Some(t) in s.allOf.value && !IsReference(t)))
  }

  lemma RefersTo(v: string, t: string)
    ensures RefType(v) == t <==> ('/' !in t && v == REFERENCE + t) || (v == t && !IsReference(t))
  {
    hide RefType;
    RefTypeReads(v);
    if IsReference(v) {
      var n :| '/' !in n && v == REFERENCE + n;
      SameEnd(REFERENCE, n, t);
    }
  }

  lemma SameEnd(a: string, n: string, t: string)
    ensures a + n == a + t <==> n == t
  {
    assert (a + n)[|a|..] == n && (a + t)[|a|..] == t;
  }

  lemma MentionedBy(s: Schema, t: string)
    ensures Mentions(s, t) <==> s.allOf.Some? && exists j :: MentionsAt(s, t, j)
  {
    hide RefType, IsReference;
    if s.allOf.Some? {
      var refs := s.allOf.value;
      forall j | 0 <= j < |refs| && refs[j].Some?
        ensures RefType(refs[j].value) == t <==>
                ('/' !in t && refs[j].value == REFERENCE + t) || (refs[j].value == t && !IsReference(t)) {
        RefersTo(refs[j].value, t);
      }
      if Mentions(s, t) {
        if '/' !in t && Some(REFERENCE + t) in refs {
          var j :| 0 <= j < |refs| && refs[j] == Some(REFERENCE + t);
          assert MentionsAt(s, t, j);
        } else {
          var j :| 0 <= j < |refs| && refs[j] == Some(t);
          assert MentionsAt(s, t, j);
        }
      }
    }
  }

  /** The j-th reference of the schema reduces to the type. */
  predicate MentionsAt(s: Schema, t: string, j: int)
    requires s.allOf.Some?
  {
    0 <= j < |s.allOf.value| && s.allOf.value[j].Some? && RefType(s.allOf.value[j].value) == t
  }

  ghost predicate BuildsOn(schemas: seq<Schema>, n: string, t: string) {
    exists i :: 0 <= i < |schemas| && schemas[i].name == n && Mentions(schemas[i], t)
  }

  /** Every schema that builds on a member is a member. */
  ghost predicate Closed(schemas: seq<Schema>, s: set<string>) {
    forall n, t :: t in s && BuildsOn(schemas, n, t) ==> n in s
  }

  /** Every schema that builds on one of these types is in the set. */
  ghost predicate Picked(schemas: seq<Schema>, ts: set<string>, s: set<string>) {
    forall n, t :: t in ts && BuildsOn(schemas, n, t) ==> n in s
  }

  /** Whatever is closed and has the old members and the name has the new members. */
  ghost predicate Needed(schemas: seq<Schema>, before: set<string>, after: set<string>) {
    forall s :: Closed(schemas, s) && before <= s ==> after <= s
  }

  lemma PickNothing(schemas: seq<Schema>, s: set<string>)
    ensures Picked(schemas, s - s, s) && Needed(schemas, s, s)
  {
  }

  lemma PickMore(schemas: seq<Schema>, before: set<string>, middle: set<string>, after: set<string>)
    requires before <= middle <= after
    requires Picked(schemas, middle - before, middle) && Picked(schemas, after - middle, after)
    ensures Picked(schemas, after - before, after)
  {
    hide BuildsOn;
    forall n, t | t in after - before && BuildsOn(schemas, n, t) ensures n in after {
      if t in middle { assert t in middle - before; } else { assert t in after - middle; }
    }
  }

  lemma NeedMore(schemas: seq<Schema>, before: set<string>, middle: set<string>, n: string, t: string,
      after: set<string>)
    requires Needed(schemas, before, middle) && t in middle && BuildsOn(schemas, n, t)
    requires Needed(schemas, middle + {n}, after)
    ensures Needed(schemas, before, after)
  {
    hide BuildsOn;
  }

  lemma FewerLeft(schemas: seq<Schema>, s: set<string>, n: string)
    requires n in Names(schemas) && n !in s
    ensures |Names(schemas) - (s + {n})| < |Names(schemas) - s|
  {
    hide Names;
    Smaller(Names(schemas) - (s + {n}), Names(schemas) - s, n);
  }

  lemma Smaller(a: set<string>, b: set<string>, n: string)
    requires a <= b && n in b && n !in a
    ensures |a| < |b|
  {
    SubsetSize(a, b - {n});
  }

  lemma SubsetSize(a: set<string>, b: set<string>)
    requires a <= b
    ensures |a| <= |b|
  {
    assert b == a + (b - a);
  }

  lemma NoMoreLeft(schemas: seq<Schema>, s: set<string>, s': set<string>)
    requires s <= s'
    ensures |Names(schemas) - s'| <= |Names(schemas) - s|
  {
    hide Names;
    SubsetSize(Names(schemas) - s', Names(schemas) - s);
  }

  lemma Mentioned(schemas: seq<Schema>, i: nat, j: nat)
    requires i < |schemas| && schemas[i].allOf.Some? && j < |schemas[i].allOf.value| && schemas[i].allOf.value[j].Some?
    ensures BuildsOn(schemas, schemas[i].name, RefType(schemas[i].allOf.value[j].value))
    ensures schemas[i].name in Names(schemas)
  {
    hide RefType, Names, Mentions;
    var t := RefType(schemas[i].allOf.value[j].value);
    MentionedBy(schemas[i], t);
    assert MentionsAt(schemas[i], t, j);
  }

  class TypeSet {
    var types: set<string>

    constructor ()
      ensures types == {}
    {
      types := {};
    }

    /** recursive_transitive_types: afterwards the name and every schema that builds on a new type are in the set,
        and nothing that is not needed for that. */
    method RecursiveTransitiveTypes(typeName: string, schemas: seq<Schema>)
      modifies this
      ensures typeName in types && old(types) <= types
      ensures typeName in old(types) || typeName !in Names(schemas) ==> types == old(types) + {typeName}
      ensures typeName in Names(schemas) ==> Picked(schemas, types - old(types), types)
      ensures Needed(schemas, old(types) + {typeName}, types)
      decreases |Names(schemas) - types|, 0
    {
      hide Names, Closed, BuildsOn, Picked, Needed;
      PickNothing(schemas, types);
      if typeName in types {
        assert types + {typeName} == types;
        return;
      }
      types := types + {typeName};
      PickNothing(schemas, types);
      if typeName in Names(schemas) {
        FewerLeft(schemas, old(types), typeName);
        Scan(typeName, schemas, old(types));
      }
    }

    /** The loop over all schemas once a new type is in the set. */
    method Scan(typeName: string, schemas: seq<Schema>, ghost before: set<string>)
      requires types == before + {typeName} && typeName in Names(schemas)
      modifies this
      ensures old(types) <= types
      ensures Picked(schemas, types - before, types)
      ensures Needed(schemas, old(types), types)
      decreases |Names(schemas) - types|, 1
    {
      hide Names, Closed, BuildsOn, Picked, Needed, Mentions;
      PickNothing(schemas, types);
      var i := 0;
      while i < |schemas|
        invariant 0 <= i <= |schemas| && old(types) <= types
        invariant Picked(schemas, types - old(types), types) && Needed(schemas, old(types), types)
        invariant forall k :: 0 <= k < i && Mentions(schemas[k], typeName) ==> schemas[k].name in types
      {
        NoMoreLeft(schemas, old(types), types);
        ScanOne(typeName, schemas, i, old(types));
        i := i + 1;
      }
      PickedName(schemas, before, typeName, types);
    }

    /** One schema of that loop: the loop over its references. */
    method ScanOne(typeName: string, schemas: seq<Schema>, i: nat, ghost start: set<string>)
      requires i < |schemas| && start <= types && typeName in types
      requires Picked(schemas, types - start, types) && Needed(schemas, start, types)
      modifies this
      ensures old(types) <= types
      ensures Picked(schemas, types - start, types) && Needed(schemas, start, types)
      ensures Mentions(schemas[i], typeName) ==> schemas[i].name in types
      decreases |Names(schemas) - types|, 1, 0
    {
      hide Names, Closed, BuildsOn, Picked, Needed, RefType, Mentions;
      var n := schemas[i].name;
      MentionedBy(schemas[i], typeName);
      if n in types || schemas[i].allOf.None? {
        return;
      }
      var refs := schemas[i].allOf.value;
      var j := 0;
      while j < |refs|
        invariant 0 <= j <= |refs| && old(types) <= types
        invariant Picked(schemas, types - start, types) && Needed(schemas, start, types)
        invariant forall k :: 0 <= k < j && refs[k].Some? && RefType(refs[k].value) == typeName ==> n in types
      {
        if refs[j].Some? {
          var t := RefType(refs[j].value);
          if t in types {
            Mentioned(schemas, i, j);
            NoMoreLeft(schemas, old(types), types);
            ghost var middle := types;
            RecursiveTransitiveTypes(n, schemas);
            PickMore(schemas, start, middle, types);
            NeedMore(schemas, start, middle, n, t, types);
          }
        }
        j := j + 1;
      }
    }
  }

  lemma PickedName(schemas: seq<Schema>, before: set<string>, typeName: string, types: set<string>)
    requires before + {typeName} <= types
    requires Picked(schemas, types - (before + {typeName}), types)
    requires forall k :: 0 <= k < |schemas| && Mentions(schemas[k], typeName) ==> schemas[k].name in types
    ensures Picked(schemas, types - before, types)
  {
    hide Mentions;
    forall n, t | t in types - before && BuildsOn(schemas, n, t) ensures n in types {
      if t != typeName { assert t in types - (before + {typeName}); }
    }
  }

  // ---- The closure ----

  /** A chain of schemas, each of which builds on the one before. */
  ghost predicate Chain(schemas: seq<Schema>, c: seq<string>) {
    c != [] && forall i :: 0 <= i < |c| - 1 ==> BuildsOn(schemas, c[i + 1], c[i])
  }

  ghost predicate Descends(schemas: seq<Schema>, start: string, n: string) {
    exists c :: Chain(schemas, c) && c[0] == start && c[|c| - 1] == n
  }

  lemma DescendsSelf(schemas: seq<Schema>, start: string)
    ensures Descends(schemas, start, start)
  {
    assert Chain(schemas, [start]);
  }

  lemma DescendsMore(schemas: seq<Schema>, start: string, t: string, n: string)
    requires Descends(schemas, start, t) && BuildsOn(schemas, n, t)
    ensures Descends(schemas, start, n)
  {
    hide BuildsOn;
    var c :| Chain(schemas, c) && c[0] == start && c[|c| - 1] == t;
    var d := c + [n];
    assert Chain(schemas, d) && d[0] == start && d[|d| - 1] == n;
  }

  lemma {:induction false} ChainWithin(schemas: seq<Schema>, c: seq<string>, s: set<string>, i: nat)
    requires Closed(schemas, s) && Chain(schemas, c) && c[0] in s && i < |c|
    ensures c[i] in s
  {
    hide BuildsOn;
    if i > 0 {
      ChainWithin(schemas, c, s, i - 1);
      assert BuildsOn(schemas, c[i - 1 + 1], c[i - 1]);
    }
  }

  lemma BuildingIsSchema(schemas: seq<Schema>, n: string, t: string)
    requires BuildsOn(schemas, n, t)
    ensures n in Names(schemas)
  {
    hide Mentions, Names;
  }

  /** The least closed set around a name is what descends from it. */
  lemma LeastIsDescendants(schemas: seq<Schema>, start: string, s: set<string>)
    requires start in s && Picked(schemas, s, s) && Needed(schemas, {start}, s)
    ensures forall n :: n in s <==> Descends(schemas, start, n)
  {
    hide BuildsOn, Chain, Names;
    assert Closed(schemas, s);
    var r := set n | n in Names(schemas) + {start} && Descends(schemas, start, n);
    DescendsSelf(schemas, start);
    forall n, t | t in r && BuildsOn(schemas, n, t) ensures n in r {
      DescendsMore(schemas, start, t, n);
      BuildingIsSchema(schemas, n, t);
    }
    assert Closed(schemas, r) && {start} <= r;
    forall n | Descends(schemas, start, n) ensures n in s {
      DescendantWithin(schemas, start, n, s);
    }
  }

  lemma DescendantWithin(schemas: seq<Schema>, start: string, n: string, s: set<string>)
    requires Closed(schemas, s) && start in s && Descends(schemas, start, n)
    ensures n in s
  {
    hide BuildsOn;
    var c :| Chain(schemas, c) && c[0] == start && c[|c| - 1] == n;
    ChainWithin(schemas, c, s, |c| - 1);
  }

  /** A schema that refers to another one descends from it. */
  lemma ReferringDescends(schemas: seq<Schema>, i: nat, t: string)
    requires i < |schemas| && schemas[i].allOf.Some? && '/' !in t
    requires Some("#/components/schemas/" + t) in schemas[i].allOf.value
    ensures Descends(schemas, t, schemas[i].name)
  {
    hide IsReference;
    assert Mentions(schemas[i], t);
    DescendsSelf(schemas, t);
    DescendsMore(schemas, t, t, schemas[i].name);
  }

  /** What descends from W where S refers to W is S and W. */
  lemma OneReference()
    ensures var schemas := [Schema("S", Some([Some("#/components/schemas/W")])), Schema("W", None)];
            forall n :: Descends(schemas, "W", n) <==> n == "S" || n == "W"
  {
    hide Names, BuildsOn, Descends, IsReference;
    var schemas := [Schema("S", Some([Some("#/components/schemas/W")])), Schema("W", None)];
    assert "#/components/schemas/" + "W" == "#/components/schemas/W";
    assert Some("#/components/schemas/W") in schemas[0].allOf.value;
    ReferringDescends(schemas, 0, "W");
    DescendsSelf(schemas, "W");
    forall n | Descends(schemas, "W", n) ensures n == "S" || n == "W" {
      forall m, t | BuildsOn(schemas, m, t) ensures m in {"S", "W"} {
        BuildingIsSchema(schemas, m, t);
        NameOfOne(schemas, m);
      }
      DescendantWithin(schemas, "W", n, {"S", "W"});
    }
  }

  lemma NameOfOne(schemas: seq<Schema>, n: string)
    requires n in Names(schemas)
    ensures exists i :: 0 <= i < |schemas| && schemas[i].name == n
  {
  }

  /** filter_transitive_types: for a name that is a schema, exactly the schemas that descend from it by references,
      in order; for any other name only the name. */
  method FilterTransitiveTypes(typeName: string, schemas: seq<Schema>) returns (r: seq<string>)
    ensures typeName in Names(schemas) ==> forall n :: n in r <==> Descends(schemas, typeName, n)
    ensures typeName !in Names(schemas) ==> r == [typeName]
    ensures forall i, j :: 0 <= i < j < |r| ==> Less(r[i], r[j])
  {
    hide Names, Picked, Needed, Descends, Less;
    var types := new TypeSet();
    types.RecursiveTransitiveTypes(typeName, schemas);
    r := SortedKeys(types.types);
    assert types.types - {} == types.types && {} + {typeName} == {typeName};
    if typeName in Names(schemas) {
      LeastIsDescendants(schemas, typeName, types.types);
    } else {
      OneSorted(typeName);
    }
  }

  lemma OneSorted(n: string)
    ensures SortedKeys({n}) == [n]
  {
    assert MinKey({n}) == n;
    assert {n} - {n} == {};
  }
}
