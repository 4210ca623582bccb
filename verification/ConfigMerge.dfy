/** Overlaying one configuration tree on another: operator+= of YamlConfigurationNode
    (src/libs/config/yaml_node.h), and why it is a right-biased union of leaf maps. */
module ConfigMerge {
  import opened Paths
  import opened ScalarText
  import opened ConfigTree
  import opened MapFacts

  predicate IsContainer(k: Kind) {
    !IsScalarKind(k) && k != SEQUENCE
  }

  /** Containers whose children are merged one by one. */
  predicate IsMapLike(k: Kind) {
    IsContainer(k) && k != SEQUENCE_MAP
  }

  /** The node that operator+= inserts for a name that the target does not have yet. */
  function Fresh(n: Tree): Tree {
    NewNode(n.name).(kind := n.kind)
  }

  function Target(a: Tree, n: Tree): Tree {
    if n.name in a.kids then a.kids[n.name] else Fresh(n)
  }

  // ---- What the code computes, step by step ----

  /** a += n */
  function MergeInto(a: Tree, n: Tree): Outcome
    decreases n, 2, 0
  {
    if n.name == "root" then MergeNode(a, n)
    else
      var r := MergeNode(Target(a, n), n);
      Outcome(a.(kids := a.kids[n.name := r.tree]), r.ok)
  }

  /** The branches of operator+= once add_to is known. The list branch is the one taken when the
      parent of add_to carries no text. */
  function MergeNode(t: Tree, n: Tree): Outcome
    decreases n, 1, 0
  {
    if IsScalarKind(t.kind) then
      if IsScalarKind(n.kind) then Outcome(SetScalar(t, n.scalar), true) else Outcome(t, false)
    else if t.kind == SEQUENCE then
      if n.kind == SEQUENCE && !HasKids(t) then Outcome(SetList(t, n.items), true) else Outcome(t, false)
    else if t.kind == SEQUENCE_MAP then
      if n.kind == SEQUENCE_MAP then MergeKids(t.(kids := map[]), n, SortedKeys(n.kids.Keys)) else Outcome(t, false)
    else MergeKids(t, n, SortedKeys(n.kids.Keys))
  }

  function MergeKids(acc: Tree, n: Tree, ks: seq<string>): Outcome
    requires forall k :: k in ks ==> k in n.kids
    decreases n, 0, |ks|
  {
    if ks == [] then Outcome(acc, true)
    else
      var r := MergeInto(acc, n.kids[ks[0]]);
      if r.ok then MergeKids(r.tree, n, ks[1..]) else r
  }

  /** operator+= for a node other than a root: insert the target, then merge into it. */
  lemma MergeIntoVia(a: Tree, n: Tree, t: Tree, r: Outcome, result: Tree)
    requires n.name != "root" && t == a.(kids := a.kids[n.name := Target(a, n)])
    requires r == MergeNode(Target(a, n), n) && result == t.(kids := t.kids[n.name := r.tree])
    ensures Outcome(result, r.ok) == MergeInto(a, n)
  {
    UpdateTwice(a.kids, n.name, Target(a, n), r.tree);
  }

  /** The loop over the children has merged i of them; going on from there gives the outcome goal. */
  ghost predicate MergeLeft(t: Tree, n: Tree, ks: seq<string>, i: nat, goal: Outcome) {
    i <= |ks| && (forall k :: k in ks ==> k in n.kids) && goal == MergeKids(t, n, ks[i..])
  }

  lemma MergeLeftStart(t: Tree, n: Tree)
    ensures MergeLeft(t, n, SortedKeys(n.kids.Keys), 0, MergeKids(t, n, SortedKeys(n.kids.Keys)))
  {
    var ks := SortedKeys(n.kids.Keys);
    assert ks[0..] == ks;
  }

  lemma MergeLeftStep(t: Tree, n: Tree, ks: seq<string>, i: nat, goal: Outcome)
    requires i < |ks| && MergeLeft(t, n, ks, i, goal)
    ensures ks[i] in n.kids
    ensures var r := MergeInto(t, n.kids[ks[i]]);
            if r.ok then MergeLeft(r.tree, n, ks, i + 1, goal) else r == goal
  {
    assert ks[i..][0] == ks[i] && ks[i..][1..] == ks[i + 1..];
  }

  lemma MergeLeftEnd(t: Tree, n: Tree, ks: seq<string>, goal: Outcome)
    requires MergeLeft(t, n, ks, |ks|, goal)
    ensures goal == Outcome(t, true)
  {
  }

  // ---- Names and shapes ----

  /** The children are filed under their own names, and none is called "root". */
  predicate KidsNamed(t: Tree) {
    forall k :: k in t.kids ==> t.kids[k].name == k && k != "root"
  }

  /** No node below the top is called "root", the name that operator+= treats specially. */
  ghost predicate Rootless(t: Tree) {
    forall k :: k in t.kids ==> k != "root" && Rootless(t.kids[k])
  }

  /** Kinds fit contents: a scalar has the type its text determines, scalars and lists have no
      children, a sequence of maps has some, an empty container carries no text. */
  ghost predicate Shaped(t: Tree) {
    && (IsScalarKind(t.kind) ==> t.kind == ScalarKind(t.scalar))
    && (!IsContainer(t.kind) ==> !HasKids(t))
    && (t.kind == SEQUENCE_MAP ==> HasKids(t))
    && (IsContainer(t.kind) && !HasKids(t) ==> t.scalar == "")
    && forall k :: k in t.kids ==> Shaped(t.kids[k])
  }

  ghost predicate Mergeable(t: Tree) {
    Named(t) && Rootless(t) && Shaped(t)
  }

  /** Containers carry no text of their own. Trees built by overlays onto a new root are like this
      whatever the documents hold. */
  ghost predicate Clean(t: Tree) {
    (IsContainer(t.kind) ==> t.scalar == "") && forall k :: k in t.kids ==> Clean(t.kids[k])
  }

  /** Merging into a container changes nothing but its children. */
  lemma {:induction false} MergeIntoKind(a: Tree, n: Tree)
    requires IsContainer(a.kind)
    ensures MergeInto(a, n).tree == a.(kids := MergeInto(a, n).tree.kids)
    decreases n, 1
  {
    if n.name == "root" {
      var ks := SortedKeys(n.kids.Keys);
      MergeKidsKind(a, n, ks);
      MergeKidsKind(a.(kids := map[]), n, ks);
    }
  }

  lemma {:induction false} MergeKidsKind(acc: Tree, n: Tree, ks: seq<string>)
    requires IsContainer(acc.kind) && forall k :: k in ks ==> k in n.kids
    ensures MergeKids(acc, n, ks).tree == acc.(kids := MergeKids(acc, n, ks).tree.kids)
    decreases n, 0, |ks|
  {
    if ks != [] {
      var r := MergeInto(acc, n.kids[ks[0]]);
      MergeIntoKind(acc, n.kids[ks[0]]);
      if r.ok {
        MergeKidsKind(r.tree, n, ks[1..]);
      }
    }
  }

  lemma ClearedClean(t: Tree)
    requires Clean(t)
    ensures Clean(t.(kids := map[]))
  {
  }

  lemma TargetClean(a: Tree, n: Tree)
    requires Clean(a)
    ensures Clean(Target(a, n))
  {
  }

  lemma {:induction false} MergeIntoClean(a: Tree, n: Tree)
    requires Clean(a)
    ensures Clean(MergeInto(a, n).tree)
    decreases n, 2, 0
  {
    if n.name == "root" {
      MergeNodeClean(a, n);
    } else {
      MergeNodeClean(Target(a, n), n);
    }
  }

  lemma {:induction false} MergeNodeClean(t: Tree, n: Tree)
    requires Clean(t)
    ensures Clean(MergeNode(t, n).tree)
    decreases n, 1, 0
  {
    if IsContainer(t.kind) {
      var ks := SortedKeys(n.kids.Keys);
      MergeKidsClean(t, n, ks);
      MergeKidsClean(t.(kids := map[]), n, ks);
    }
  }

  lemma {:induction false} MergeKidsClean(acc: Tree, n: Tree, ks: seq<string>)
    requires Clean(acc) && forall k :: k in ks ==> k in n.kids
    ensures Clean(MergeKids(acc, n, ks).tree)
    decreases n, 0, |ks|
  {
    if ks != [] {
      MergeIntoClean(acc, n.kids[ks[0]]);
      var r := MergeInto(acc, n.kids[ks[0]]);
      if r.ok {
        MergeKidsClean(r.tree, n, ks[1..]);
      }
    }
  }

  // ---- The name "root" is never added ----

  lemma RootlessUpdate(t: Tree, k: string, c: Tree)
    requires Rootless(t) && Rootless(c) && k != "root"
    ensures Rootless(t.(kids := t.kids[k := c]))
  {
  }

  lemma RootlessTarget(a: Tree, n: Tree)
    requires Rootless(a)
    ensures Rootless(Target(a, n))
  {
  }

  /** An overlay never adds a key "root". */
  lemma {:induction false} MergeIntoRootless(a: Tree, n: Tree)
    requires Rootless(a)
    ensures Rootless(MergeInto(a, n).tree)
    decreases n, 2, 0
  {
    hide Rootless;
    if n.name == "root" {
      MergeNodeRootless(a, n);
    } else {
      RootlessTarget(a, n);
      MergeNodeRootless(Target(a, n), n);
      RootlessUpdate(a, n.name, MergeNode(Target(a, n), n).tree);
    }
  }

  lemma {:induction false} MergeNodeRootless(t: Tree, n: Tree)
    requires Rootless(t)
    ensures Rootless(MergeNode(t, n).tree)
    decreases n, 1, 0
  {
    if IsContainer(t.kind) {
      var ks := SortedKeys(n.kids.Keys);
      MergeKidsRootless(t, n, ks);
      MergeKidsRootless(t.(kids := map[]), n, ks);
    }
  }

  lemma {:induction false} MergeKidsRootless(acc: Tree, n: Tree, ks: seq<string>)
    requires Rootless(acc) && forall k :: k in ks ==> k in n.kids
    ensures Rootless(MergeKids(acc, n, ks).tree)
    decreases n, 0, |ks|
  {
    hide Rootless;
    if ks != [] {
      MergeIntoRootless(acc, n.kids[ks[0]]);
      var r := MergeInto(acc, n.kids[ks[0]]);
      if r.ok {
        MergeKidsRootless(r.tree, n, ks[1..]);
      }
    }
  }

  // ---- The same result, without an order of evaluation ----

  /** What merging into a fresh node leaves: a deep copy without the default flag and stale texts. */
  function Copy(n: Tree): Tree {
    Tree(n.name, n.kind, if IsScalarKind(n.kind) then n.scalar else "",
         if n.kind == SEQUENCE then n.items else [], false,
         map k | k in n.kids :: Copy(n.kids[k]))
  }

  function Merged(a: Tree, b: Tree): Tree {
    if IsScalarKind(a.kind) then SetScalar(a, b.scalar)
    else if a.kind == SEQUENCE then SetList(a, b.items)
    else if a.kind == SEQUENCE_MAP then a.(kids := map k | k in b.kids :: Copy(b.kids[k]))
    else a.(kids := map k | k in a.kids.Keys + b.kids.Keys ::
                      if k !in b.kids then a.kids[k]
                      else if k in a.kids then Merged(a.kids[k], b.kids[k])
                      else Copy(b.kids[k]))
  }

  /** The overlay meets, at path p, a scalar, list or sequence of maps that it cannot overwrite. */
  predicate ConflictAt(a: Tree, b: Tree, p: Path)
    decreases p
  {
    if p == [] then
      || (IsScalarKind(a.kind) && !IsScalarKind(b.kind))
      || (a.kind == SEQUENCE && (b.kind != SEQUENCE || HasKids(a)))
      || (a.kind == SEQUENCE_MAP && b.kind != SEQUENCE_MAP)
    else IsMapLike(a.kind) && p[0] in a.kids && p[0] in b.kids && ConflictAt(a.kids[p[0]], b.kids[p[0]], p[1..])
  }

  ghost predicate NoConflict(a: Tree, b: Tree) {
    forall p :: !ConflictAt(a, b, p)
  }

  /** Between map-like nodes only shared children can be in conflict. */
  lemma NoConflictKids(a: Tree, b: Tree)
    requires IsMapLike(a.kind)
    ensures NoConflict(a, b) <==> forall k :: k in a.kids && k in b.kids ==> NoConflict(a.kids[k], b.kids[k])
  {
    forall k, p | k in a.kids && k in b.kids && ConflictAt(a.kids[k], b.kids[k], p) ensures ConflictAt(a, b, [k] + p) {
      assert ([k] + p)[1..] == p;
    }
    forall p | ConflictAt(a, b, p) ensures p != [] && !NoConflict(a.kids[p[0]], b.kids[p[0]]) {
      assert ConflictAt(a.kids[p[0]], b.kids[p[0]], p[1..]);
    }
  }

  /** An enumeration of a set of names, each of them once. */
  ghost predicate Enumerates(ks: seq<string>, names: set<string>) {
    && (forall k :: k in ks <==> k in names)
    && (forall i, j :: 0 <= i < j < |ks| ==> ks[i] != ks[j])
  }

  /** Merging distinct children one after the other treats each of them independently; m holds what
      becomes of each. */
  lemma {:induction false} MergeKidsEach(acc: Tree, n: Tree, ks: seq<string>, m: map<string, Tree>)
    requires KidsNamed(n) && m.Keys <= n.kids.Keys && Enumerates(ks, m.Keys)
    requires forall k :: k in m ==> MergeNode(Target(acc, n.kids[k]), n.kids[k]) == Outcome(m[k], true)
    ensures MergeKids(acc, n, ks) == Outcome(acc.(kids := acc.kids + m), true)
    decreases |ks|
  {
    if ks == [] {
      assert m == map[];
      assert acc.kids + m == acc.kids;
    } else {
      var k0, rest := ks[0], ks[1..];
      assert ks == [k0] + rest;
      var acc', m' := acc.(kids := acc.kids[k0 := m[k0]]), m - {k0};
      assert MergeInto(acc, n.kids[k0]) == Outcome(acc', true);
      assert Enumerates(rest, m'.Keys);
      forall k | k in m' ensures MergeNode(Target(acc', n.kids[k]), n.kids[k]) == Outcome(m'[k], true) {
        assert Target(acc', n.kids[k]) == Target(acc, n.kids[k]);
      }
      MergeKidsEach(acc', n, rest, m');
      UnionStep(acc.kids, m, k0);
    }
  }

  lemma {:induction false} MergeKidsFails(acc: Tree, n: Tree, ks: seq<string>, k: string)
    requires KidsNamed(n)
    requires forall k :: k in ks ==> k in n.kids
    requires forall i, j :: 0 <= i < j < |ks| ==> ks[i] != ks[j]
    requires k in ks && !MergeNode(Target(acc, n.kids[k]), n.kids[k]).ok
    ensures !MergeKids(acc, n, ks).ok
    decreases |ks|
  {
    if k != ks[0] {
      var r := MergeInto(acc, n.kids[ks[0]]);
      assert Target(r.tree, n.kids[k]) == Target(acc, n.kids[k]);
      if r.ok {
        MergeKidsFails(r.tree, n, ks[1..], k);
      }
    }
  }

  lemma MergeableKid(n: Tree, k: string)
    requires Mergeable(n) && k in n.kids
    ensures Mergeable(n.kids[k]) && n.kids[k].name == k
  {
  }

  lemma MergeableNames(n: Tree)
    requires Mergeable(n)
    ensures KidsNamed(n)
  {
  }

  lemma CopyKids(n: Tree)
    ensures Copy(n).kids.Keys == n.kids.Keys
    ensures forall k :: k in n.kids ==> Copy(n).kids[k] == Copy(n.kids[k])
  {
  }

  /** Merging into a fresh node never fails and yields the copy. */
  lemma {:induction false} MergeFresh(n: Tree)
    requires Mergeable(n)
    ensures MergeNode(Fresh(n), n) == Outcome(Copy(n), true)
    decreases n
  {
    if IsContainer(n.kind) {
      MergeFreshKids(n, SortedKeys(n.kids.Keys), Fresh(n));
      assert Fresh(n).(kids := map[]) == Fresh(n);
    } else {
      assert Copy(n).kids == map[];
    }
  }

  lemma {:induction false} MergeFreshKids(n: Tree, ks: seq<string>, acc: Tree)
    requires Mergeable(n) && acc.kids == map[] && Enumerates(ks, n.kids.Keys)
    ensures MergeKids(acc, n, ks) == Outcome(acc.(kids := Copy(n).kids), true)
    decreases n, 0
  {
    var m := Copy(n).kids;
    CopyKids(n);
    MergeableNames(n);
    forall k | k in n.kids ensures MergeNode(Target(acc, n.kids[k]), n.kids[k]) == Outcome(m[k], true) {
      MergeableKid(n, k);
      MergeFresh(n.kids[k]);
    }
    MergeKidsEach(acc, n, ks, m);
    EmptyUnion(acc.kids, m);
  }

  /** The merge succeeds exactly when no path is in conflict, and then its result is Merged. */
  lemma {:induction false} MergeNodeIsMerged(a: Tree, b: Tree)
    requires Mergeable(b)
    ensures MergeNode(a, b).ok <==> NoConflict(a, b)
    ensures NoConflict(a, b) ==> MergeNode(a, b).tree == Merged(a, b)
    decreases b
  {
    assert NoConflict(a, b) ==> !ConflictAt(a, b, []);
    if IsMapLike(a.kind) {
      if NoConflict(a, b) {
        MergeMapOk(a, b, SortedKeys(b.kids.Keys));
      } else {
        MergeMapFails(a, b, SortedKeys(b.kids.Keys));
      }
    } else {
      assert NoConflict(a, b) <==> !ConflictAt(a, b, []);
      if a.kind == SEQUENCE_MAP && b.kind == SEQUENCE_MAP {
        MergeFreshKids(b, SortedKeys(b.kids.Keys), a.(kids := map[]));
        assert Merged(a, b).kids == Copy(b).kids;
      }
    }
  }

  lemma MergedMapKids(a: Tree, b: Tree)
    requires IsMapLike(a.kind)
    ensures Merged(a, b).kids.Keys == a.kids.Keys + b.kids.Keys
    ensures Merged(a, b) == a.(kids := Merged(a, b).kids)
    ensures forall k :: k in a.kids && k !in b.kids ==> Merged(a, b).kids[k] == a.kids[k]
    ensures forall k :: k in a.kids && k in b.kids ==> Merged(a, b).kids[k] == Merged(a.kids[k], b.kids[k])
    ensures forall k :: k !in a.kids && k in b.kids ==> Merged(a, b).kids[k] == Copy(b.kids[k])
  {
  }

  lemma MergeKidsTo(a: Tree, b: Tree, ks: seq<string>, r: map<string, Tree>)
    requires KidsNamed(b) && Enumerates(ks, b.kids.Keys) && r.Keys == a.kids.Keys + b.kids.Keys
    requires forall k :: k in a.kids && k !in b.kids ==> r[k] == a.kids[k]
    requires forall k :: k in b.kids ==> MergeNode(Target(a, b.kids[k]), b.kids[k]) == Outcome(r[k], true)
    ensures MergeKids(a, b, ks) == Outcome(a.(kids := r), true)
  {
    var m := map k | k in b.kids :: r[k];
    assert m.Keys == b.kids.Keys;
    MergeKidsEach(a, b, ks, m);
    UnionIs(a.kids, m, r);
  }

  lemma {:induction false} MergeMapOk(a: Tree, b: Tree, ks: seq<string>)
    requires Mergeable(b) && IsMapLike(a.kind) && Enumerates(ks, b.kids.Keys) && NoConflict(a, b)
    ensures MergeKids(a, b, ks) == Outcome(Merged(a, b), true)
    decreases b, 1
  {
    MergeableNames(b);
    NoConflictKids(a, b);
    MergedMapKids(a, b);
    forall k | k in b.kids ensures MergeNode(Target(a, b.kids[k]), b.kids[k]) == Outcome(Merged(a, b).kids[k], true) {
      MergeMapKid(a, b, k);
    }
    MergeKidsTo(a, b, ks, Merged(a, b).kids);
  }

  lemma {:induction false} MergeMapFails(a: Tree, b: Tree, ks: seq<string>)
    requires Mergeable(b) && IsMapLike(a.kind) && Enumerates(ks, b.kids.Keys) && !NoConflict(a, b)
    ensures !MergeKids(a, b, ks).ok
    decreases b, 1
  {
    MergeableNames(b);
    NoConflictKids(a, b);
    var k :| k in a.kids && k in b.kids && !NoConflict(a.kids[k], b.kids[k]);
    MergeMapKid(a, b, k);
    MergeKidsFails(a, b, ks, k);
  }

  lemma {:induction false} MergeMapKid(a: Tree, b: Tree, k: string)
    requires Mergeable(b) && IsMapLike(a.kind) && k in b.kids
    ensures MergeNode(Target(a, b.kids[k]), b.kids[k]).ok <==> (k in a.kids ==> NoConflict(a.kids[k], b.kids[k]))
    ensures (k in a.kids ==> NoConflict(a.kids[k], b.kids[k])) ==>
              MergeNode(Target(a, b.kids[k]), b.kids[k]).tree == Merged(a, b).kids[k]
    decreases b, 0
  {
    MergeableKid(b, k);
    MergedMapKids(a, b);
    if k in a.kids { MergeNodeIsMerged(a.kids[k], b.kids[k]); } else { MergeFresh(b.kids[k]); }
  }
}
