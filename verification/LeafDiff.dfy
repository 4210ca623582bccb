/** Enumerating the leaves of a tree under their path texts and listing the paths on which two trees
    differ: enum_leafs and diff of YamlConfigurationNode (src/libs/config/yaml_node.h). */
module LeafDiff {
  import opened Paths
  import opened ScalarText
  import opened ConfigTree
  import opened MapFacts

  // ---- enum_leafs ----

  /** What enum_leafs adds to its map: the leaves of a tree under their texts. */
  function Enum(t: Tree, prefix: string): map<string, Tree>
    decreases t, 1
  {
    EnumKids(t, prefix, SortedKeys(t.kids.Keys))
  }

  function EnumKids(t: Tree, prefix: string, ks: seq<string>): map<string, Tree>
    requires forall k :: k in ks ==> k in t.kids
    decreases t, 0, |ks|
  {
    if ks == [] then map[]
    else EnumKid(t.kids[ks[0]], prefix + "/" + ks[0]) + EnumKids(t, prefix, ks[1..])
  }

  function EnumKid(c: Tree, path: string): map<string, Tree>
    decreases c, 2
  {
    if HasKids(c) then Enum(c, path) else map[path := c]
  }

  /** The loop of enum_leafs has enumerated the first i children into the map done; going on from
      there gives goal. */
  ghost predicate EnumTo(t: Tree, prefix: string, ks: seq<string>, i: nat, done: map<string, Tree>,
                         goal: map<string, Tree>) {
    i <= |ks| && (forall k :: k in ks ==> k in t.kids) && goal == done + EnumKids(t, prefix, ks[i..])
  }

  lemma EnumStart(t: Tree, prefix: string, done: map<string, Tree>)
    ensures EnumTo(t, prefix, SortedKeys(t.kids.Keys), 0, done, done + Enum(t, prefix))
  {
    var ks := SortedKeys(t.kids.Keys);
    assert ks[0..] == ks;
  }

  lemma EnumStep(t: Tree, prefix: string, ks: seq<string>, i: nat, done: map<string, Tree>, goal: map<string, Tree>)
    requires i < |ks| && EnumTo(t, prefix, ks, i, done, goal)
    ensures ks[i] in t.kids
    ensures EnumTo(t, prefix, ks, i + 1, done + EnumKid(t.kids[ks[i]], prefix + "/" + ks[i]), goal)
  {
    assert ks[i..][0] == ks[i] && ks[i..][1..] == ks[i + 1..];
    UnionAssociative(done, EnumKid(t.kids[ks[i]], prefix + "/" + ks[i]), EnumKids(t, prefix, ks[i + 1..]));
  }

  lemma EnumEnd(t: Tree, prefix: string, ks: seq<string>, done: map<string, Tree>, goal: map<string, Tree>)
    requires EnumTo(t, prefix, ks, |ks|, done, goal)
    ensures goal == done
  {
    UnionEmpty(done, map[]);
  }

  ghost predicate Enumerated(t: Tree, prefix: string, x: string, n: Tree) {
    exists p :: IsLeaf(t, p) && x == prefix + Join(p) && Lookup(t, p) == Some(n)
  }

  lemma LeafPathProper(t: Tree, p: Path)
    requires Named(t) && Exists(t, p)
    ensures IsPath(p)
    decreases p
  {
    if p != [] {
      LeafPathProper(t.kids[p[0]], p[1..]);
      assert p == [p[0]] + p[1..];
    }
  }

  lemma KidLeaf(t: Tree, prefix: string, k: string, p: Path)
    requires k in t.kids
    ensures IsLeaf(t, [k] + p) <==> Exists(t.kids[k], p) && !HasKids(Lookup(t.kids[k], p).value)
    ensures Exists(t.kids[k], p) ==> Lookup(t, [k] + p) == Lookup(t.kids[k], p)
    ensures prefix + Join([k] + p) == prefix + "/" + k + Join(p)
  {
    assert ([k] + p)[1..] == p;
    assert "/" + k + Join(p) == "/" + (k + Join(p));
  }

  /** Everything enumerated is a leaf under its own text. */
  lemma {:induction false} EnumSound(t: Tree, prefix: string, x: string)
    requires x in Enum(t, prefix)
    ensures Enumerated(t, prefix, x, Enum(t, prefix)[x])
    decreases t, 1
  {
    EnumKidsSound(t, prefix, SortedKeys(t.kids.Keys), x);
  }

  lemma {:induction false} EnumKidsSound(t: Tree, prefix: string, ks: seq<string>, x: string)
    requires (forall k :: k in ks ==> k in t.kids) && x in EnumKids(t, prefix, ks)
    ensures Enumerated(t, prefix, x, EnumKids(t, prefix, ks)[x])
    decreases t, 0, |ks|
  {
    var k := ks[0];
    if x in EnumKids(t, prefix, ks[1..]) {
      EnumKidsSound(t, prefix, ks[1..], x);
    } else {
      var c, path := t.kids[k], prefix + "/" + k;
      if HasKids(c) {
        EnumSound(c, path, x);
        var p :| IsLeaf(c, p) && x == path + Join(p) && Lookup(c, p) == Some(Enum(c, path)[x]);
        KidLeaf(t, prefix, k, p);
        assert IsLeaf(t, [k] + p);
      } else {
        KidLeaf(t, prefix, k, []);
        assert x == path + Join([]) && IsLeaf(t, [k] + []);
      }
    }
  }

  /** Every leaf is enumerated. */
  lemma {:induction false} EnumComplete(t: Tree, prefix: string, p: Path)
    requires IsLeaf(t, p)
    ensures prefix + Join(p) in Enum(t, prefix)
    decreases t, 1
  {
    EnumKidsComplete(t, prefix, SortedKeys(t.kids.Keys), p);
  }

  lemma {:induction false} EnumKidsComplete(t: Tree, prefix: string, ks: seq<string>, p: Path)
    requires (forall k :: k in ks ==> k in t.kids) && IsLeaf(t, p) && p[0] in ks
    ensures prefix + Join(p) in EnumKids(t, prefix, ks)
    decreases t, 0, |ks|
  {
    var k := ks[0];
    if p[0] == k {
      var c, path := t.kids[k], prefix + "/" + k;
      assert p == [k] + p[1..];
      KidLeaf(t, prefix, k, p[1..]);
      if HasKids(c) {
        EnumComplete(c, path, p[1..]);
      } else {
        assert p[1..] == [] && path + Join([]) == path;
      }
    } else {
      EnumKidsComplete(t, prefix, ks[1..], p);
    }
  }

  /** The enumeration is the leaf map, keyed by the texts of the paths. */
  lemma EnumIsLeafs(t: Tree)
    requires Named(t)
    ensures forall p :: IsLeaf(t, p) ==> Join(p) in Enum(t, "") && Enum(t, "")[Join(p)] == Lookup(t, p).value
    ensures forall x :: x in Enum(t, "") ==> exists p :: IsLeaf(t, p) && x == Join(p)
  {
    hide IsLeaf, Enum, Named;
    forall p | IsLeaf(t, p)
        ensures Join(p) in Enum(t, "") && Exists(t, p) && Enum(t, "")[Join(p)] == Lookup(t, p).value {
      EnumComplete(t, "", p);
      assert "" + Join(p) == Join(p);
      EnumSound(t, "", Join(p));
      var q :| IsLeaf(t, q) && Join(p) == "" + Join(q) && Lookup(t, q) == Some(Enum(t, "")[Join(p)]);
      assert "" + Join(q) == Join(q);
      LeafExists(t, p);
      LeafExists(t, q);
      LeafPathProper(t, p);
      LeafPathProper(t, q);
      JoinInjective(p, q);
    }
    forall x | x in Enum(t, "") ensures exists p :: IsLeaf(t, p) && x == Join(p) {
      EnumSound(t, "", x);
      var p :| IsLeaf(t, p) && x == "" + Join(p) && Lookup(t, p) == Some(Enum(t, "")[x]);
      assert "" + Join(p) == Join(p);
    }
  }

  lemma LeafExists(t: Tree, p: Path)
    requires IsLeaf(t, p)
    ensures Exists(t, p)
  {
  }

  // ---- diff ----

  /** operator!= between nodes: the items of lists are not looked at. */
  predicate SameNode(a: Tree, b: Tree) {
    a.name == b.name && a.kind == b.kind && a.scalar == b.scalar
  }

  function ChangedIn(na: map<string, Tree>, nb: map<string, Tree>, ks: seq<string>): seq<string>
    requires forall k :: k in ks ==> k in na
  {
    if ks == [] then []
    else
      (if ks[0] !in nb || !SameNode(na[ks[0]], nb[ks[0]]) then [ks[0]] else []) + ChangedIn(na, nb, ks[1..])
  }

  function OnlyIn(na: map<string, Tree>, ks: seq<string>): seq<string> {
    if ks == [] then [] else (if ks[0] !in na then [ks[0]] else []) + OnlyIn(na, ks[1..])
  }

  /** The list that diff returns for two enumerations. */
  function DiffOf(na: map<string, Tree>, nb: map<string, Tree>): seq<string> {
    ChangedIn(na, nb, SortedKeys(na.Keys)) + OnlyIn(na, SortedKeys(nb.Keys))
  }

  function Diff(a: Tree, b: Tree): seq<string> {
    DiffOf(Enum(a, ""), Enum(b, ""))
  }

  lemma ChangedStep(na: map<string, Tree>, nb: map<string, Tree>, ks: seq<string>, i: nat, done: seq<string>)
    requires i < |ks| && forall k :: k in ks ==> k in na
    ensures done + ChangedIn(na, nb, ks[i..]) ==
            done + (if ks[i] !in nb || !SameNode(na[ks[i]], nb[ks[i]]) then [ks[i]] else []) +
                ChangedIn(na, nb, ks[i + 1..])
  {
    var one := if ks[i] !in nb || !SameNode(na[ks[i]], nb[ks[i]]) then [ks[i]] else [];
    var rest := ChangedIn(na, nb, ks[i + 1..]);
    assert ks[i..][0] == ks[i] && ks[i..][1..] == ks[i + 1..];
    assert done + (one + rest) == done + one + rest;
  }

  lemma ChangedEnd(na: map<string, Tree>, nb: map<string, Tree>, ks: seq<string>, done: seq<string>)
    requires forall k :: k in ks ==> k in na
    ensures done + ChangedIn(na, nb, ks[|ks|..]) == done
  {
    ConcatEmpty(done);
  }

  lemma OnlyInEnd(na: map<string, Tree>, ks: seq<string>, done: seq<string>)
    ensures done + OnlyIn(na, ks[|ks|..]) == done
  {
    ConcatEmpty(done);
  }

  lemma OnlyInStep(na: map<string, Tree>, ks: seq<string>, i: nat, done: seq<string>)
    requires i < |ks|
    ensures done + OnlyIn(na, ks[i..]) == done + (if ks[i] !in na then [ks[i]] else []) + OnlyIn(na, ks[i + 1..])
  {
    var one := if ks[i] !in na then [ks[i]] else [];
    var rest := OnlyIn(na, ks[i + 1..]);
    assert ks[i..][0] == ks[i] && ks[i..][1..] == ks[i + 1..];
    assert done + (one + rest) == done + one + rest;
  }

  ghost predicate NoDuplicates(xs: seq<string>) {
    forall i, j :: 0 <= i < j < |xs| ==> xs[i] != xs[j]
  }

  lemma {:induction false} ChangedInSpec(na: map<string, Tree>, nb: map<string, Tree>, ks: seq<string>)
    requires (forall k :: k in ks ==> k in na) && NoDuplicates(ks)
    ensures NoDuplicates(ChangedIn(na, nb, ks))
    ensures forall x :: x in ChangedIn(na, nb, ks) <==> x in ks && (x !in nb || !SameNode(na[x], nb[x]))
  {
    if ks != [] {
      assert ks == [ks[0]] + ks[1..];
      ChangedInSpec(na, nb, ks[1..]);
    }
  }

  lemma {:induction false} OnlyInSpec(na: map<string, Tree>, ks: seq<string>)
    requires NoDuplicates(ks)
    ensures NoDuplicates(OnlyIn(na, ks))
    ensures forall x :: x in OnlyIn(na, ks) <==> x in ks && x !in na
  {
    if ks != [] {
      assert ks == [ks[0]] + ks[1..];
      OnlyInSpec(na, ks[1..]);
    }
  }

  lemma ConcatNoDuplicates(xs: seq<string>, ys: seq<string>)
    requires NoDuplicates(xs) && NoDuplicates(ys) && forall x :: x in xs ==> x !in ys
    ensures NoDuplicates(xs + ys)
    ensures forall x :: x in xs + ys <==> x in xs || x in ys
  {
    var zs := xs + ys;
    forall i, j | 0 <= i < j < |zs| ensures zs[i] != zs[j] {
      if i < |xs| <= j {
        assert zs[i] in xs && ys[j - |xs|] in ys;
      }
    }
  }

  lemma HasElement(xs: seq<string>)
    ensures xs != [] ==> exists x :: x in xs
  {
    if xs != [] { assert xs[0] in xs; }
  }

  lemma DiffOfSpec(na: map<string, Tree>, nb: map<string, Tree>)
    ensures NoDuplicates(DiffOf(na, nb))
    ensures forall x :: x in DiffOf(na, nb) <==>
              (x in na && x !in nb) || (x in nb && x !in na) || (x in na && x in nb && !SameNode(na[x], nb[x]))
  {
    hide ChangedIn, OnlyIn, SameNode, SortedKeys;
    var xs, ys := ChangedIn(na, nb, SortedKeys(na.Keys)), OnlyIn(na, SortedKeys(nb.Keys));
    ChangedInSpec(na, nb, SortedKeys(na.Keys));
    OnlyInSpec(na, SortedKeys(nb.Keys));
    ConcatNoDuplicates(xs, ys);
  }

  /** A leaf path of only one of the trees, or one at which the two leaves differ for operator!=. */
  ghost predicate DifferAt(a: Tree, b: Tree, p: Path) {
    || (IsLeaf(a, p) && !IsLeaf(b, p))
    || (IsLeaf(b, p) && !IsLeaf(a, p))
    || (IsLeaf(a, p) && IsLeaf(b, p) && !SameNode(Lookup(a, p).value, Lookup(b, p).value))
  }

  lemma LeafTexts(t: Tree, p: Path)
    requires Named(t) && IsPath(p)
    ensures IsLeaf(t, p) <==> Join(p) in Enum(t, "")
    ensures IsLeaf(t, p) ==> Enum(t, "")[Join(p)] == Lookup(t, p).value
  {
    EnumIsLeafs(t);
    if Join(p) in Enum(t, "") {
      var q :| IsLeaf(t, q) && Join(p) == Join(q);
      LeafPathProper(t, q);
      JoinInjective(p, q);
    }
  }

  /** diff lists exactly the texts of the paths on which the trees differ, each of them once. */
  lemma DiffExact(a: Tree, b: Tree)
    requires Named(a) && Named(b)
    ensures NoDuplicates(Diff(a, b))
    ensures forall x :: x in Diff(a, b) <==> exists p :: DifferAt(a, b, p) && x == Join(p)
  {
    hide Named, IsLeaf, Enum, DiffOf, SameNode;
    var na, nb := Enum(a, ""), Enum(b, "");
    DiffOfSpec(na, nb);
    forall x | x in Diff(a, b) ensures exists p :: DifferAt(a, b, p) && x == Join(p) {
      EnumIsLeafs(a);
      EnumIsLeafs(b);
      var p :| (IsLeaf(a, p) || IsLeaf(b, p)) && x == Join(p);
      ProperLeaf(a, b, p);
      LeafTexts(a, p);
      LeafTexts(b, p);
      assert DifferAt(a, b, p);
    }
    forall p | DifferAt(a, b, p) ensures Join(p) in Diff(a, b) {
      ProperLeaf(a, b, p);
      LeafTexts(a, p);
      LeafTexts(b, p);
    }
  }

  lemma ProperLeaf(a: Tree, b: Tree, p: Path)
    requires Named(a) && Named(b) && (IsLeaf(a, p) || IsLeaf(b, p))
    ensures IsPath(p)
  {
    LeafPathProper(if IsLeaf(a, p) then a else b, p);
  }

  /** As sets of paths: nothing separates a tree from itself, the order of the trees does not matter,
      and what separates a from c separates a from b or b from c. */
  lemma DiffIsMetricLike(a: Tree, b: Tree, c: Tree)
    requires Named(a) && Named(b) && Named(c)
    ensures Diff(a, a) == []
    ensures forall x :: x in Diff(a, b) <==> x in Diff(b, a)
    ensures forall x :: x in Diff(a, c) ==> x in Diff(a, b) || x in Diff(b, c)
  {
    hide Named, IsLeaf, Diff, SameNode, Join;
    DiffExact(a, a);
    DiffExact(a, b);
    DiffExact(b, a);
    DiffExact(a, c);
    DiffExact(b, c);
    DifferSelf(a);
    HasElement(Diff(a, a));
    forall x | x in Diff(a, c) ensures x in Diff(a, b) || x in Diff(b, c) {
      var p :| DifferAt(a, c, p) && x == Join(p);
      DifferTriangle(a, b, c, p);
    }
    forall p ensures DifferAt(a, b, p) <==> DifferAt(b, a, p) {
      DifferSym(a, b, p);
    }
  }

  lemma DifferSelf(a: Tree)
    ensures forall p :: !DifferAt(a, a, p)
  {
  }

  lemma DifferSym(a: Tree, b: Tree, p: Path)
    ensures DifferAt(a, b, p) <==> DifferAt(b, a, p)
  {
  }

  lemma DifferTriangle(a: Tree, b: Tree, c: Tree, p: Path)
    requires DifferAt(a, c, p)
    ensures DifferAt(a, b, p) || DifferAt(b, c, p)
  {
  }
}
