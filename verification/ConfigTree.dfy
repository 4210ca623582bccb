/** The value of a configuration tree and what each in-place operation of YamlConfigurationNode
    (src/libs/config/yaml_node.h) makes of it, with the theorems about its leaf map. */
module ConfigTree {
  import opened Paths
  import opened ScalarText
  import opened MapFacts

  /** One node with everything below it; the fields are those of YamlConfigurationNode. */
  datatype Tree = Tree(name: string, kind: Kind, scalar: string, items: seq<string>, isDefault: bool,
                       kids: map<string, Tree>)

  /** A tree after an operation, and whether the operation returned normally. */
  datatype Outcome = Outcome(tree: Tree, ok: bool)

  /** What a reader sees of a leaf: the text of a list is ignored, and so are the items of a scalar. */
  datatype Leaf = Leaf(kind: Kind, text: string, items: seq<string>)

  function NewNode(name: string): Tree {
    Tree(name, NONE, "", [], false, map[])
  }

  function NewRoot(): Tree {
    Tree("root", UNKNOWN, "", [], false, map[])
  }

  predicate HasKids(t: Tree) {
    t.kids.Keys != {}
  }

  function LeafOf(t: Tree): Leaf {
    if t.kind == SEQUENCE then Leaf(SEQUENCE, "", t.items) else Leaf(t.kind, t.scalar, [])
  }

  /** The kind of a node once add_child was called on it. */
  function ChildKind(k: Kind): Kind {
    if k != MAP && k != SEQUENCE_MAP then MAP else k
  }

  /** add_child */
  function AddChild(t: Tree, k: string, c: Tree): Tree {
    t.(kind := ChildKind(t.kind), kids := t.kids[k := c])
  }

  /** determine_scalar_type */
  function DetermineKind(t: Tree): (k: Kind)
    ensures IsScalarKind(k)
  {
    if t.kind == SEQUENCE then FirstKind(t.items) else ScalarKind(t.scalar)
  }

  /** set_scalar: the type is determined while the node still carries its old one. */
  function SetScalar(t: Tree, text: string): Tree {
    var u := t.(scalar := text);
    u.(kind := DetermineKind(u))
  }

  function SetList(t: Tree, items: seq<string>): Tree {
    t.(items := items, kind := SEQUENCE)
  }

  // ---- Paths into a tree ----

  function Lookup(t: Tree, p: Path): Option<Tree> {
    if p == [] then Some(t)
    else if p[0] in t.kids then Lookup(t.kids[p[0]], p[1..])
    else None
  }

  predicate Exists(t: Tree, p: Path) {
    Lookup(t, p).Some?
  }

  /** A path that leads to a node without children, other than the root. */
  predicate IsLeaf(t: Tree, p: Path) {
    p != [] && Exists(t, p) && !HasKids(Lookup(t, p).value)
  }

  /** A path that leads to a node with children. */
  predicate IsInterior(t: Tree, p: Path) {
    Exists(t, p) && HasKids(Lookup(t, p).value)
  }

  /** The tree with the node at an existing path exchanged. */
  function Graft(t: Tree, p: Path, s: Tree): Tree
    requires Exists(t, p)
  {
    if p == [] then s else t.(kids := t.kids[p[0] := Graft(t.kids[p[0]], p[1..], s)])
  }

  function LeafPathsOrSelf(t: Tree): set<Path> {
    if !HasKids(t) then {[]}
    else set k, q | k in t.kids && q in LeafPathsOrSelf(t.kids[k]) :: [k] + q
  }

  lemma {:induction false} LeafPathsOrSelfSpec(t: Tree, p: Path)
    ensures p in LeafPathsOrSelf(t) <==> Exists(t, p) && !HasKids(Lookup(t, p).value)
    decreases t
  {
    if HasKids(t) {
      if p != [] && p[0] in t.kids {
        LeafPathsOrSelfSpec(t.kids[p[0]], p[1..]);
        assert p == [p[0]] + p[1..];
      }
      if p in LeafPathsOrSelf(t) {
        var k, q :| k in t.kids && q in LeafPathsOrSelf(t.kids[k]) && p == [k] + q;
        assert p[0] == k && p[1..] == q;
      }
    }
  }

  function LeafPaths(t: Tree): (s: set<Path>)
    ensures forall p :: p in s <==> IsLeaf(t, p)
  {
    assert forall p :: p in LeafPathsOrSelf(t) <==> Exists(t, p) && !HasKids(Lookup(t, p).value) by {
      forall p ensures p in LeafPathsOrSelf(t) <==> Exists(t, p) && !HasKids(Lookup(t, p).value) {
        LeafPathsOrSelfSpec(t, p);
      }
    }
    LeafPathsOrSelf(t) - {[]}
  }

  /** The leaf map of a tree: what enum_leafs collects, keyed by path. */
  function Leafs(t: Tree): map<Path, Leaf> {
    map p | p in LeafPaths(t) :: LeafOf(Lookup(t, p).value)
  }

  lemma {:induction false} LookupSplit(t: Tree, p: Path, q: Path)
    ensures Exists(t, p) ==> Lookup(t, p + q) == Lookup(Lookup(t, p).value, q)
    ensures Exists(t, p + q) ==> Exists(t, p)
    ensures q != [] && Exists(t, p + q) ==> IsInterior(t, p)
    decreases p
  {
    if p == [] {
      assert p + q == q;
    } else {
      assert (p + q)[0] == p[0] && (p + q)[1..] == p[1..] + q;
      if p[0] in t.kids {
        LookupSplit(t.kids[p[0]], p[1..], q);
      }
    }
  }

  /** Leaf paths are prefix-free. */
  lemma PrefixFree(t: Tree, p: Path, q: Path)
    requires IsLeaf(t, p) && IsLeaf(t, q) && p <= q
    ensures p == q
  {
    LookupSplit(t, p, q[|p|..]);
    assert p + q[|p|..] == q;
  }

  lemma {:induction false} LookupGraft(t: Tree, p: Path, s: Tree, q: Path)
    requires Exists(t, p)
    ensures p <= q ==> Lookup(Graft(t, p, s), q) == Lookup(s, q[|p|..])
    ensures !(p <= q) && !(q <= p) ==> Lookup(Graft(t, p, s), q) == Lookup(t, q)
    ensures q < p ==> Exists(Graft(t, p, s), q) && IsInterior(Graft(t, p, s), q) && IsInterior(t, q)
    decreases p
  {
    if p == [] {
      assert q[0..] == q;
    } else {
      var c := t.kids[p[0]];
      assert p[0] in Graft(t, p, s).kids;
      if q != [] && q[0] == p[0] {
        LookupGraft(c, p[1..], s, q[1..]);
        TailPrefix(p, q);
      }
    }
  }

  lemma {:induction false} GraftSelf(t: Tree, p: Path)
    requires Exists(t, p)
    ensures Graft(t, p, Lookup(t, p).value) == t
    decreases p
  {
    if p != [] {
      GraftSelf(t.kids[p[0]], p[1..]);
      assert t.kids[p[0] := t.kids[p[0]]] == t.kids;
    }
  }

  /** Exchanging a node and then one of its new children is exchanging it once. */
  lemma {:induction false} GraftBelow(t: Tree, p: Path, x: Tree, k: string, y: Tree)
    requires Exists(t, p) && k in x.kids
    ensures Exists(Graft(t, p, x), p + [k])
    ensures Lookup(Graft(t, p, x), p) == Some(x)
    ensures Lookup(Graft(t, p, x), p + [k]) == Some(x.kids[k])
    ensures Graft(Graft(t, p, x), p + [k], y) == Graft(t, p, x.(kids := x.kids[k := y]))
    decreases p
  {
    if p == [] {
      assert p + [k] == [k] && [k][1..] == [];
      assert Graft(x.kids[k], [], y) == y;
    } else {
      var j := p[0];
      GraftBelow(t.kids[j], p[1..], x, k, y);
      assert (p + [k])[1..] == p[1..] + [k] && (p + [k])[0] == j;
      var t1 := Graft(t, p, x);
      assert t1.kids[j] == Graft(t.kids[j], p[1..], x);
      assert t1.kids[j := Graft(t1.kids[j], p[1..] + [k], y)] == t.kids[j := Graft(t1.kids[j], p[1..] + [k], y)];
    }
  }

  lemma NoLeafs(t: Tree)
    requires !HasKids(t)
    ensures Leafs(t) == map[]
  {
    assert forall p :: p in LeafPaths(t) ==> IsLeaf(t, p);
  }

  /** A node with children has a leaf below it. */
  lemma {:induction false} SomeLeaf(t: Tree) returns (p: Path)
    requires HasKids(t)
    ensures IsLeaf(t, p)
    decreases t
  {
    var k :| k in t.kids;
    var q := [];
    if HasKids(t.kids[k]) { q := SomeLeaf(t.kids[k]); }
    p := [k] + q;
    assert p[1..] == q;
  }

  lemma OneLeaf(name: string, c: Tree)
    requires c.kids == map[]
    ensures var t := NewRoot().(kids := map[name := c]);
            Leafs(t) == map[[name] := LeafOf(c)] && IsLeaf(t, [name]) && Lookup(t, [name]) == Some(c) && forall p ::
                IsLeaf(t, p) ==> p == [name]
  {
    var t := NewRoot().(kids := map[name := c]);
    assert [name][1..] == [];
    forall p | IsLeaf(t, p) ensures p == [name] {
      assert p[0] in t.kids && p == [p[0]] + p[1..];
      assert Exists(c, p[1..]);
    }
    assert Lookup(t, [name]) == Lookup(c, []);
    assert forall p :: p in Leafs(t) <==> p == [name];
    MapExt(Leafs(t), map[[name] := LeafOf(c)]);
  }

  // ---- Names ----

  /** Every child is filed under its own name. */
  ghost predicate Named(t: Tree) {
    forall k :: k in t.kids ==> t.kids[k].name == k && IsKey(k) && Named(t.kids[k])
  }

  /** The name of a node below the root is the last key of its path. */
  lemma {:induction false} NamedAt(t: Tree, p: Path)
    requires Named(t) && Exists(t, p) && p != []
    ensures Lookup(t, p).value.name == p[|p| - 1]
    decreases p
  {
    if |p| > 1 {
      NamedAt(t.kids[p[0]], p[1..]);
    } else {
      assert p[1..] == [];
    }
  }

  // ---- find_or_insert and set_value ----

  /** One round of the insertion loop: the child k of the node at path p, added if it is missing. */
  function InsertChild(n: Tree, k: string): (r: Tree)
    ensures k in r.kids
  {
    if k in n.kids then n else AddChild(n, k, NewNode(k))
  }

  function FindOrInsert(t: Tree, p: Path): (r: Tree)
    ensures Exists(r, p)
    decreases p
  {
    if p == [] then t
    else
      var t' := InsertChild(t, p[0]);
      t'.(kids := t'.kids[p[0] := FindOrInsert(t'.kids[p[0]], p[1..])])
  }

  /** The insertion loop has gone down i keys of q; going on from there leads to the tree goal. */
  ghost predicate InsertedTo(t: Tree, q: Path, i: nat, goal: Tree)
    requires i <= |q|
  {
    Exists(t, q[..i]) && goal == Graft(t, q[..i], FindOrInsert(Lookup(t, q[..i]).value, q[i..]))
  }

  lemma InsertStart(t: Tree, q: Path)
    ensures InsertedTo(t, q, 0, FindOrInsert(t, q))
  {
    assert q[..0] == [] && q[0..] == q;
  }

  lemma InsertStep(t: Tree, q: Path, i: nat, goal: Tree)
    requires i < |q| && InsertedTo(t, q, i, goal)
    ensures InsertedTo(Graft(t, q[..i], InsertChild(Lookup(t, q[..i]).value, q[i])), q, i + 1, goal)
  {
    var p, k, rest := q[..i], q[i], q[i + 1..];
    assert q[i..] == [k] + rest && q[..i + 1] == p + [k] && q[i..][1..] == rest;
    var n := InsertChild(Lookup(t, p).value, k);
    GraftBelow(t, p, n, k, FindOrInsert(n.kids[k], rest));
  }

  lemma InsertEnd(t: Tree, q: Path, goal: Tree)
    requires InsertedTo(t, q, |q|, goal)
    ensures t == goal
  {
    assert q[..|q|] == q && q[|q|..] == [];
    GraftSelf(t, q);
  }

  /** On an existing path nothing is inserted. */
  lemma FindOrInsertExisting(t: Tree, p: Path)
    requires Exists(t, p)
    ensures FindOrInsert(t, p) == t
    decreases p
  {
    if p != [] {
      FindOrInsertExisting(t.kids[p[0]], p[1..]);
      assert t.kids[p[0] := t.kids[p[0]]] == t.kids;
    }
  }

  lemma ExistsOne(t: Tree, k: string)
    ensures Exists(t, [k]) <==> k in t.kids
  {
    assert [k][1..] == [];
    if k in t.kids {
      assert Lookup(t.kids[k], [k][1..]).Some?;
    }
  }

  lemma LookupInsertedOne(t: Tree, k: string, q: Path)
    requires k !in t.kids
    ensures FindOrInsert(t, [k]) == AddChild(t, k, NewNode(k))
    ensures Lookup(FindOrInsert(t, [k]), [k]) == Some(NewNode(k))
    ensures q == [] ==> IsInterior(FindOrInsert(t, [k]), q)
    ensures !(q <= [k]) ==> Lookup(FindOrInsert(t, [k]), q) == Lookup(t, q)
  {
    var c := NewNode(k);
    assert [k][1..] == [] && FindOrInsert(c, []) == c;
    var t' := AddChild(t, k, c);
    assert t'.kids[k := c] == t'.kids;
    assert k in t'.kids;
    if q != [] && q[0] == k {
      TailPrefix([k], q);
    }
  }

  lemma {:induction false} LookupInserted(t: Tree, p: Path, q: Path)
    requires !Exists(t, p)
    ensures Lookup(FindOrInsert(t, p), p) == Some(NewNode(p[|p| - 1]))
    ensures q < p ==> IsInterior(FindOrInsert(t, p), q)
    ensures !(q <= p) ==> Lookup(FindOrInsert(t, p), q) == Lookup(t, q)
    decreases p
  {
    if |p| == 1 {
      assert p == [p[0]];
      ExistsOne(t, p[0]);
      LookupInsertedOne(t, p[0], q);
    } else {
      var t' := InsertChild(t, p[0]);
      var c := t'.kids[p[0]];
      LookupInserted(c, p[1..], if q == [] then [] else q[1..]);
      var r := FindOrInsert(t, p);
      assert r == t'.(kids := t'.kids[p[0] := FindOrInsert(c, p[1..])]);
      if q != [] && q[0] == p[0] {
        TailPrefix(p, q);
        assert Lookup(r, q) == Lookup(FindOrInsert(c, p[1..]), q[1..]);
      }
    }
  }

  function SetValue(t: Tree, p: Path, text: string): Outcome {
    var t' := FindOrInsert(t, p);
    var n := Lookup(t', p).value;
    if HasKids(n) then Outcome(t', false) else Outcome(Graft(t', p, SetScalar(n, text)), true)
  }

  function SetListAt(t: Tree, p: Path, items: seq<string>): Outcome {
    var t' := FindOrInsert(t, p);
    var n := Lookup(t', p).value;
    if HasKids(n) then Outcome(t', false) else Outcome(Graft(t', p, SetList(n, items)), true)
  }

  /** The leaves that remain when p becomes a leaf: those that are not proper prefixes of it. */
  function WithoutPrefixes<T>(m: map<Path, T>, p: Path): map<Path, T> {
    map q | q in m && !(q < p) :: m[q]
  }

  /** The type that a text set at a path gets: that of the first item if there was a list before. */
  function KindAt(m: map<Path, Leaf>, p: Path, text: string): (k: Kind)
    ensures IsScalarKind(k)
  {
    if p in m && m[p].kind == SEQUENCE then FirstKind(m[p].items) else ScalarKind(text)
  }

  lemma PutLookup(t: Tree, p: Path, n: Tree, q: Path)
    requires p != [] && !IsInterior(t, p) && !HasKids(n)
    ensures q == p ==> Lookup(Graft(FindOrInsert(t, p), p, n), q) == Some(n)
    ensures q < p ==> IsInterior(Graft(FindOrInsert(t, p), p, n), q)
    ensures p < q ==> !Exists(Graft(FindOrInsert(t, p), p, n), q) && !Exists(t, q)
    ensures !(q <= p) && !(p <= q) ==> Lookup(Graft(FindOrInsert(t, p), p, n), q) == Lookup(t, q)
  {
    LookupGraft(FindOrInsert(t, p), p, n, q);
    if q == p { assert q[|p|..] == []; }
    if p < q {
      assert p + q[|p|..] == q;
      LookupSplit(t, p, q[|p|..]);
    }
    if Exists(t, p) {
      FindOrInsertExisting(t, p);
    } else {
      LookupInserted(t, p, q);
    }
  }

  lemma LeafsFromPointwise(t: Tree, t2: Tree, p: Path, n: Tree)
    requires IsLeaf(t2, p) && Lookup(t2, p) == Some(n)
    requires forall q :: q != p ==> (IsLeaf(t2, q) <==> IsLeaf(t, q) && !(q < p))
    requires forall q :: q != p && IsLeaf(t2, q) ==> Lookup(t2, q) == Lookup(t, q)
    ensures Leafs(t2) == WithoutPrefixes(Leafs(t), p)[p := LeafOf(n)]
  {
    var l, r := Leafs(t2), WithoutPrefixes(Leafs(t), p)[p := LeafOf(n)];
    assert l.Keys == r.Keys;
    MapExt(l, r);
  }

  /** Exchanging a childless node reached by find_or_insert for another childless node. */
  lemma PutLeafs(t: Tree, p: Path, n: Tree)
    requires p != [] && !IsInterior(t, p) && !HasKids(n)
    ensures Leafs(Graft(FindOrInsert(t, p), p, n)) == WithoutPrefixes(Leafs(t), p)[p := LeafOf(n)]
  {
    var t2 := Graft(FindOrInsert(t, p), p, n);
    PutLookup(t, p, n, p);
    forall q | q != p
      ensures IsLeaf(t2, q) <==> IsLeaf(t, q) && !(q < p)
      ensures IsLeaf(t2, q) ==> Lookup(t2, q) == Lookup(t, q)
    {
      PutLookup(t, p, n, q);
    }
    LeafsFromPointwise(t, t2, p, n);
  }

  lemma LeafKindAt(t: Tree, p: Path, text: string)
    requires p != [] && !IsInterior(t, p)
    ensures KindAt(Leafs(t), p, text) ==
            if IsLeaf(t, p) && Lookup(t, p).value.kind == SEQUENCE then FirstKind(Lookup(t, p).value.items)
                else ScalarKind(text)
  {
    assert IsLeaf(t, p) <==> p in Leafs(t);
  }

  lemma SetScalarLeaf(t: Tree, p: Path, text: string)
    requires p != [] && !IsInterior(t, p)
    ensures LeafOf(SetScalar(Lookup(FindOrInsert(t, p), p).value, text)) == Leaf(KindAt(Leafs(t), p, text), text, [])
  {
    hide Leafs, IsLeaf, KindAt, FirstKind, ScalarKind, FindOrInsert;
    LeafKindAt(t, p, text);
    if Exists(t, p) {
      FindOrInsertExisting(t, p);
      assert IsLeaf(t, p) by { IsLeafIf(t, p); }
    } else {
      LookupInserted(t, p, p);
      assert !IsLeaf(t, p) by { IsLeafIf(t, p); }
    }
  }

  lemma IsLeafIf(t: Tree, p: Path)
    requires p != [] && !IsInterior(t, p)
    ensures IsLeaf(t, p) <==> Exists(t, p)
  {
  }

  lemma SetValueOk(t: Tree, p: Path, text: string)
    requires p != []
    ensures SetValue(t, p, text).ok <==> !IsInterior(t, p)
    ensures !SetValue(t, p, text).ok ==> SetValue(t, p, text).tree == t
    ensures SetValue(t, p, text).ok ==>
              SetValue(t, p, text).tree ==
                  Graft(FindOrInsert(t, p), p, SetScalar(Lookup(FindOrInsert(t, p), p).value, text))
              && !HasKids(Lookup(FindOrInsert(t, p), p).value)
  {
    hide Graft, SetScalar;
    if Exists(t, p) {
      FindOrInsertExisting(t, p);
    } else {
      LookupInserted(t, p, p);
    }
  }

  /** set_value throws, changing nothing, exactly on an interior path; otherwise it only puts the
      new leaf and drops the leaves that the path runs through. The new leaf has the type of its text
      exactly if there was no list whose first item has another one. */
  lemma SetValueLeafs(t: Tree, p: Path, text: string)
    requires p != []
    ensures SetValue(t, p, text).ok <==> !IsInterior(t, p)
    ensures !SetValue(t, p, text).ok ==> SetValue(t, p, text).tree == t
    ensures SetValue(t, p, text).ok ==>
              Leafs(SetValue(t, p, text).tree) ==
                  WithoutPrefixes(Leafs(t), p)[p := Leaf(KindAt(Leafs(t), p, text), text, [])]
    ensures SetValue(t, p, text).ok ==>
              (Leafs(SetValue(t, p, text).tree)[p].kind == ScalarKind(text) <==>
               !(IsLeaf(t, p) && Lookup(t, p).value.kind == SEQUENCE
                   && FirstKind(Lookup(t, p).value.items) != ScalarKind(text)))
  {
    hide FirstKind, ScalarKind, SetValue, Leafs, FindOrInsert, Graft, WithoutPrefixes, KindAt, LeafOf;
    SetValueOk(t, p, text);
    if !IsInterior(t, p) {
      PutLeafs(t, p, SetScalar(Lookup(FindOrInsert(t, p), p).value, text));
      SetScalarLeaf(t, p, text);
      LeafKindAt(t, p, text);
    }
  }

  lemma SetListLeafs(t: Tree, p: Path, items: seq<string>)
    requires p != []
    ensures SetListAt(t, p, items).ok <==> !IsInterior(t, p)
    ensures !SetListAt(t, p, items).ok ==> SetListAt(t, p, items).tree == t
    ensures SetListAt(t, p, items).ok ==>
              Leafs(SetListAt(t, p, items).tree) == WithoutPrefixes(Leafs(t), p)[p := Leaf(SEQUENCE, "", items)]
  {
    if Exists(t, p) {
      FindOrInsertExisting(t, p);
    } else {
      LookupInserted(t, p, p);
    }
    if !IsInterior(t, p) {
      PutLeafs(t, p, SetList(Lookup(FindOrInsert(t, p), p).value, items));
    }
  }

  // ---- erase ----

  /** The tree without the child that an existing path leads to. */
  function Cut(t: Tree, p: Path): Tree
    requires p != [] && Exists(t, p)
    decreases p
  {
    if |p| == 1 then t.(kids := t.kids - {p[0]})
    else t.(kids := t.kids[p[0] := Cut(t.kids[p[0]], p[1..])])
  }

  /** The stack loop of erase: cut, then go on with the parent while it was left empty. */
  function Prune(t: Tree, p: Path): Tree
    requires Exists(t, p)
    decreases |p|
  {
    if p == [] then t
    else
      var parent := p[..|p| - 1];
      LookupSplit(t, parent, p[|p| - 1..]);
      assert parent + p[|p| - 1..] == p;
      LookupCut(t, p, parent);
      if HasKids(Lookup(Cut(t, p), parent).value) then Cut(t, p)
      else if parent == [] then Cut(t, p)
      else Prune(t, parent)
  }

  function Erase(t: Tree, p: Path): Outcome {
    if !Exists(t, p) || HasKids(Lookup(t, p).value) then Outcome(t, false) else Outcome(Prune(t, p), true)
  }

  lemma {:induction false} LookupCut(t: Tree, p: Path, q: Path)
    requires p != [] && Exists(t, p)
    ensures p <= q ==> Lookup(Cut(t, p), q).None?
    ensures !(p <= q) && !(q <= p) ==> Lookup(Cut(t, p), q) == Lookup(t, q)
    ensures q < p ==> Exists(t, q) && Exists(Cut(t, p), q)
    ensures q < p && |q| + 1 < |p| ==> IsInterior(Cut(t, p), q)
    ensures q < p && |q| + 1 == |p| ==>
              Lookup(Cut(t, p), q).value == Lookup(t, q).value.(kids := Lookup(t, q).value.kids - {p[|q|]})
    decreases p
  {
    if |p| == 1 {
      if p <= q { assert q[0] == p[0]; }
      if q != [] && q[0] == p[0] { assert p + q[1..] == q; }
    } else if q == [] {
      assert p[0] in Cut(t, p).kids;
    } else if q[0] == p[0] {
      LookupCut(t.kids[p[0]], p[1..], q[1..]);
      TailPrefix(p, q);
    }
  }

  /** Removing a child of the node at a path is cutting at the longer path. */
  lemma {:induction false} GraftCut(t: Tree, p: Path, k: string)
    requires Exists(t, p + [k])
    ensures Exists(t, p) && k in Lookup(t, p).value.kids
    ensures Graft(t, p, Lookup(t, p).value.(kids := Lookup(t, p).value.kids - {k})) == Cut(t, p + [k])
    decreases p
  {
    if p == [] {
      assert p + [k] == [k];
      ExistsOne(t, k);
    } else {
      assert (p + [k])[1..] == p[1..] + [k];
      GraftCut(t.kids[p[0]], p[1..], k);
    }
  }

  /** Cutting at a path undoes what was cut below it. */
  lemma {:induction false} CutCut(t: Tree, p: Path, k: string)
    requires p != [] && Exists(t, p + [k])
    ensures Exists(t, p) && Exists(Cut(t, p + [k]), p)
    ensures Cut(Cut(t, p + [k]), p) == Cut(t, p)
    decreases p
  {
    assert (p + [k])[1..] == p[1..] + [k];
    var c := t.kids[p[0]];
    var t1 := Cut(t, p + [k]);
    assert t1 == t.(kids := t.kids[p[0] := Cut(c, p[1..] + [k])]);
    if |p| == 1 {
      assert p[1..] == [] && p == [p[0]];
      ExistsOne(t, p[0]);
      ExistsOne(t1, p[0]);
      assert t1.kids - {p[0]} == t.kids - {p[0]};
    } else {
      CutCut(c, p[1..], k);
      var c2 := Cut(c, p[1..]);
      assert t1.kids[p[0] := c2] == t.kids[p[0] := c2];
    }
  }

  /** The pruning loop has come up to the node at q[..j], which it has left childless (unless the
      loop has not cut anything yet); going on from there leads to Prune(t0, q). */
  ghost predicate PruneTo(t0: Tree, q: Path, j: nat, t: Tree) {
    && j <= |q| && Exists(t0, q) && Exists(t0, q[..j])
    && Prune(t0, q) == Prune(t0, q[..j])
    && if j == |q| then t == t0
       else Exists(t0, q[..j + 1]) && t == Cut(t0, q[..j + 1]) && Exists(t, q[..j]) && !HasKids(Lookup(t, q[..j]).value)
  }

  ghost predicate PruneLeft(t0: Tree, q: Path, j: nat, t: Tree) {
    if j == 0 then Exists(t0, q) && t == Prune(t0, q) else PruneTo(t0, q, j, t)
  }

  lemma PruneStart(t0: Tree, q: Path)
    requires Exists(t0, q)
    ensures PruneLeft(t0, q, |q|, t0)
  {
    TakeAll(q);
  }

  lemma PruneStep(t0: Tree, q: Path, j: nat, t: Tree)
    requires 0 < j <= |q| && PruneLeft(t0, q, j, t)
    ensures Exists(t0, q) && Exists(t0, q[..j]) && Exists(t, q[..j]) && Exists(Cut(t, q[..j]), q[..j - 1])
    ensures Cut(t, q[..j]) == Cut(t0, q[..j])
    ensures var t1 := Cut(t, q[..j]);
            if HasKids(Lookup(t1, q[..j - 1]).value) then t1 == Prune(t0, q) else PruneLeft(t0, q, j - 1, t1)
  {
    var p := q[..j];
    TakeSnoc(q, j - 1);
    assert p[..|p| - 1] == q[..j - 1];
    if j < |q| {
      TakeSnoc(q, j);
      CutCut(t0, p, q[j]);
    } else {
      TakeAll(q);
    }
    assert Cut(t, p) == Cut(t0, p);
    LookupCut(t0, p, q[..j - 1]);
    LookupSplit(t0, q[..j - 1], [q[j - 1]]);
  }

  lemma PrunedName(t0: Tree, q: Path, j: nat, t: Tree)
    requires Named(t0) && 1 <= j <= |q| && Exists(t0, q[..j]) && t == Cut(t0, q[..j]) && Exists(t, q[..j - 1])
    ensures j > 1 ==> Lookup(t, q[..j - 1]).value.name == q[j - 2]
  {
    assert q[..j - 1] < q[..j] by { TakeSnoc(q, j - 1); }
    LookupCut(t0, q[..j], q[..j - 1]);
    if j > 1 { NamedAt(t0, q[..j - 1]); }
  }

  /** Every leaf below p is the leaf at l: what the pruned ancestors of l have in common. */
  ghost predicate OnlyLeafBelow(t: Tree, p: Path, l: Path) {
    p <= l && IsLeaf(t, l) && forall q :: p <= q && IsLeaf(t, q) ==> q == l
  }

  lemma LeafsWithout(t: Tree, t2: Tree, l: Path)
    requires forall q :: IsLeaf(t2, q) <==> IsLeaf(t, q) && q != l
    requires forall q :: IsLeaf(t2, q) ==> Lookup(t2, q) == Lookup(t, q)
    ensures Leafs(t2) == Leafs(t) - {l}
  {
    var a, b := Leafs(t2), Leafs(t) - {l};
    assert a.Keys == b.Keys;
    MapExt(a, b);
  }

  lemma CutLookup(t: Tree, p: Path, l: Path, q: Path)
    requires p != [] && Exists(t, p) && OnlyLeafBelow(t, p, l)
    requires |p| == 1 || IsInterior(Cut(t, p), p[..|p| - 1])
    ensures IsLeaf(Cut(t, p), q) <==> IsLeaf(t, q) && q != l
    ensures IsLeaf(Cut(t, p), q) ==> Lookup(Cut(t, p), q) == Lookup(t, q)
  {
    LookupCut(t, p, q);
    if q < p {
      LookupSplit(t, q, p[|q|..]);
      assert q + p[|q|..] == p;
      if |q| + 1 == |p| { assert q == p[..|p| - 1]; }
    }
  }

  lemma {:induction false} PruneLeafs(t: Tree, p: Path, l: Path)
    requires p != [] && Exists(t, p) && OnlyLeafBelow(t, p, l)
    ensures Leafs(Prune(t, p)) == Leafs(t) - {l}
    decreases |p|
  {
    var parent := p[..|p| - 1];
    assert parent + p[|p| - 1..] == p;
    LookupSplit(t, parent, p[|p| - 1..]);
    LookupCut(t, p, parent);
    var c := Cut(t, p);
    if HasKids(Lookup(c, parent).value) || parent == [] {
      forall q
        ensures IsLeaf(c, q) <==> IsLeaf(t, q) && q != l
        ensures IsLeaf(c, q) ==> Lookup(c, q) == Lookup(t, q)
      {
        CutLookup(t, p, l, q);
      }
      LeafsWithout(t, c, l);
    } else {
      forall q | parent <= q && IsLeaf(t, q) ensures q == l {
        LookupSplit(t, parent, q[|parent|..]);
        assert parent + q[|parent|..] == q;
        var k := q[|parent|];
        assert k in Lookup(t, parent).value.kids;
        assert k !in Lookup(c, parent).value.kids;
        assert k == p[|parent|];
        assert p <= q;
      }
      PruneLeafs(t, parent, l);
    }
  }

  /** erase succeeds exactly on existing childless nodes; otherwise nothing changes. On success the
      leaf map loses that one leaf: no emptied ancestor is left behind as a leaf. */
  lemma EraseLeafs(t: Tree, p: Path)
    requires p != []
    ensures Erase(t, p).ok <==> p in Leafs(t)
    ensures !Erase(t, p).ok ==> Erase(t, p).tree == t
    ensures Erase(t, p).ok ==> Leafs(Erase(t, p).tree) == Leafs(t) - {p}
  {
    if IsLeaf(t, p) {
      forall q | p <= q && IsLeaf(t, q) ensures q == p {
        PrefixFree(t, p, q);
      }
      PruneLeafs(t, p, p);
    }
  }
}
