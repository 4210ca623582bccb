/** Writing a tree out and reading it back (emit, create and set_map in src/libs/config/yaml_node.h):
    the leaf map survives exactly when every leaf is a scalar with the type of its text. */
module EmitReread {
  import opened Paths
  import opened ScalarText
  import opened ConfigTree
  import opened ConfigMerge
  import opened ConfigDoc
  import opened MapFacts

  /** A scalar with the type that its text determines: what can be written to a file. */
  predicate PlainLeaf(l: Leaf) {
    l == Leaf(ScalarKind(l.text), l.text, [])
  }

  ghost predicate PlainLeaves(t: Tree) {
    forall p :: p in Leafs(t) ==> PlainLeaf(Leafs(t)[p])
  }

  /** What reading back makes of a node: a map of its children, or its text as a scalar. */
  function ReadBack(c: Tree, name: string): Tree {
    if HasKids(c) then NewNode(name).(kind := MAP, kids := map k | k in c.kids :: ReadBack(c.kids[k], k))
    else SetScalar(NewNode(name), c.scalar)
  }

  lemma ReadBackKids(h: Tree, name: string)
    requires HasKids(h)
    ensures ReadBack(h, name) == NewNode(name).(kind := MAP, kids := ReadBack(h, name).kids)
    ensures ReadBack(h, name).kids.Keys == h.kids.Keys
    ensures forall k :: k in h.kids ==> ReadBack(h, name).kids[k] == ReadBack(h.kids[k], k)
  {
  }

  lemma {:induction false} CreateEmitted(c: Tree, name: string)
    requires Named(c)
    ensures Create(EmitValue(c), name) == Some(ReadBack(c, name))
    decreases c, 1
  {
    hide Named, SetMap, SetEntry, EmitEntries, SortedKeys, ScalarKind, ReadBack, HasKids;
    if HasKids(c) {
      var t := NewNode(name).(kind := MAP);
      var m := ReadBack(c, name).kids;
      ReadBackKids(c, name);
      SetMapEmitted(t, c, SortedKeys(c.kids.Keys), m);
      EmptyUnion(t.kids, m);
    } else {
      ReadBackText(c, name);
    }
  }

  lemma ReadBackText(c: Tree, name: string)
    requires !HasKids(c)
    ensures ReadBack(c, name) == SetScalar(NewNode(name), c.scalar)
  {
  }

  lemma SetPlainEntry(t: Tree, k: string, v: Tree)
    requires t.kind == MAP && IsKey(k) && k !in t.kids
    ensures EntryName(k) == k && SetEntry(t, k, Some(v)) == Some(t.(kids := t.kids[k := v]))
  {
    assert KeyPath(k) == [k] && [k][..0] == [];
    assert FindOrInsert(t, []) == t && Lookup(t, []) == Some(t);
  }

  lemma {:induction false} SetMapEmitted(t: Tree, c: Tree, ks: seq<string>, m: map<string, Tree>)
    requires Named(c) && t.kind == MAP && m.Keys <= c.kids.Keys && Enumerates(ks, m.Keys)
    requires forall k :: k in m ==> k !in t.kids && m[k] == ReadBack(c.kids[k], k)
    ensures SetMap(t, EmitEntries(c, ks)) == Some(t.(kids := t.kids + m))
    decreases c, 0, |ks|
  {
    hide Named, SetMap, SetEntry, EmitEntries, ReadBack, Create, EmitValue, IsKey;
    if ks == [] {
      EmittedNothing(t, c);
      assert m == map[];
      UnionEmpty(t.kids, m);
    } else {
      var k, rest := ks[0], ks[1..];
      assert ks == [k] + rest;
      NamedKid(c, k);
      CreateEmitted(c.kids[k], k);
      SetPlainEntry(t, k, m[k]);
      var t', m' := t.(kids := t.kids[k := m[k]]), m - {k};
      assert Enumerates(rest, m'.Keys);
      SetMapEmitted(t', c, rest, m');
      UnionStep(t.kids, m, k);
      EmittedStep(t, c, ks);
    }
  }

  lemma EmittedNothing(t: Tree, c: Tree)
    ensures SetMap(t, EmitEntries(c, [])) == Some(t)
  {
  }

  lemma NamedKid(c: Tree, k: string)
    requires Named(c) && k in c.kids
    ensures Named(c.kids[k]) && IsKey(k)
  {
  }

  lemma SetMapStep(t: Tree, e: Entry, rest: seq<Entry>)
    ensures var r := SetEntry(t, e.key, Create(e.value, EntryName(e.key)));
            SetMap(t, [e] + rest) == if r.None? then None else SetMap(r.value, rest)
  {
    var es := [e] + rest;
    assert es[0] == e && es[1..] == rest;
  }

  lemma EmittedStep(t: Tree, c: Tree, ks: seq<string>)
    requires ks != [] && forall k :: k in ks ==> k in c.kids
    ensures var r := SetEntry(t, ks[0], Create(EmitValue(c.kids[ks[0]]), EntryName(ks[0])));
            SetMap(t, EmitEntries(c, ks)) == if r.None? then None else SetMap(r.value, EmitEntries(c, ks[1..]))
  {
    var e, rest := Entry(ks[0], EmitValue(c.kids[ks[0]])), EmitEntries(c, ks[1..]);
    assert EmitEntries(c, ks) == [e] + rest;
    SetMapStep(t, e, rest);
  }

  lemma {:induction false} ReadBackLeaf(c: Tree, name: string, p: Path)
    ensures Exists(ReadBack(c, name), p) <==> Exists(c, p)
    ensures Exists(c, p) ==> (HasKids(Lookup(ReadBack(c, name), p).value) <==> HasKids(Lookup(c, p).value))
    ensures Exists(c, p) && !HasKids(Lookup(c, p).value) ==>
              LeafOf(Lookup(ReadBack(c, name), p).value) ==
                  Leaf(ScalarKind(Lookup(c, p).value.scalar), Lookup(c, p).value.scalar, [])
    decreases p
  {
    if HasKids(c) {
      if p != [] && p[0] in c.kids {
        assert ReadBack(c, name).kids[p[0]] == ReadBack(c.kids[p[0]], p[0]);
        ReadBackLeaf(c.kids[p[0]], p[0], p[1..]);
      }
    }
  }

  lemma ReadBackLeafs(t: Tree, p: Path)
    requires HasKids(t)
    ensures p in Leafs(ReadBack(t, "root")) <==> p in Leafs(t)
    ensures p in Leafs(t) ==> (Leafs(ReadBack(t, "root"))[p] == Leafs(t)[p] <==> PlainLeaf(Leafs(t)[p]))
  {
    hide ReadBack, ScalarKind;
    ReadBackLeaf(t, "root", p);
  }

  lemma SameLeafs(r: map<Path, Leaf>, m: map<Path, Leaf>)
    requires r.Keys == m.Keys
    requires forall p :: p in m ==> (r[p] == m[p] <==> PlainLeaf(m[p]))
    ensures r == m <==> forall p :: p in m ==> PlainLeaf(m[p])
  {
    if forall p :: p in m ==> PlainLeaf(m[p]) {
      MapExt(r, m);
    }
  }

  /** Reading back what was written never fails. It gives the same leaves exactly for trees whose leaves
      are all scalars with the types of their texts: of a list or a null leaf only a text is written. */
  lemma EmitThenReread(t: Tree)
    requires Named(t)
    ensures Reread(Emit(t)).Some?
    ensures Leafs(Reread(Emit(t)).value) == Leafs(t) <==> PlainLeaves(t)
  {
    hide Leafs, ReadBack, PlainLeaf, Named;
    if HasKids(t) {
      CreateEmitted(t, "root");
      assert EmitMap(t) == EmitValue(t);
      forall p
        ensures p in Leafs(ReadBack(t, "root")) <==> p in Leafs(t)
        ensures p in Leafs(t) ==> (Leafs(ReadBack(t, "root"))[p] == Leafs(t)[p] <==> PlainLeaf(Leafs(t)[p]))
      {
        ReadBackLeafs(t, p);
      }
      assert Leafs(ReadBack(t, "root")).Keys == Leafs(t).Keys;
      SameLeafs(Leafs(ReadBack(t, "root")), Leafs(t));
    } else {
      NoLeafs(t);
      NoLeafs(NewRoot());
    }
  }
}
