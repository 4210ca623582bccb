/** The name "root", which operator+= of YamlConfigurationNode (src/libs/config/yaml_node.h) takes for the
    top of a tree wherever it meets it: which documents survive being overlaid on an empty configuration. */
module RootName {
  import opened Paths
  import opened ConfigTree
  import opened ConfigMerge
  import opened OverlayLaws
  import opened MapFacts

  lemma {:induction false} RootlessPaths(t: Tree, p: Path)
    requires Rootless(t) && Exists(t, p)
    ensures "root" !in p
    decreases p
  {
    if p != [] {
      RootlessPaths(t.kids[p[0]], p[1..]);
      assert p == [p[0]] + p[1..];
    }
  }

  lemma {:induction false} RootPath(t: Tree) returns (p: Path)
    requires !Rootless(t)
    ensures IsLeaf(t, p) && "root" in p
    decreases t
  {
    var k :| k in t.kids && (k == "root" || !Rootless(t.kids[k]));
    var q := [];
    if !Rootless(t.kids[k]) {
      q := RootPath(t.kids[k]);
    } else if HasKids(t.kids[k]) {
      q := SomeLeaf(t.kids[k]);
    }
    p := [k] + q;
    assert p[0] == k && p[1..] == q;
    assert forall x :: x in q ==> x in p;
  }

  /** A document is taken over unchanged by an empty configuration exactly if none of its keys is "root". */
  lemma KeptExactlyIfRootless(b: Tree)
    requires Named(b) && Shaped(b) && b.name == "root"
    ensures Leafs(MergeInto(NewRoot(), b).tree) == Leafs(b) <==> Rootless(b)
  {
    if Rootless(b) {
      RootlessKept(b);
    } else {
      hide MergeInto, Rootless, Named, Shaped;
      MergeIntoRootless(NewRoot(), b);
      var p := RootPath(b);
      NotKept(MergeInto(NewRoot(), b).tree, b, p);
    }
  }

  lemma NotKept(t: Tree, b: Tree, p: Path)
    requires Rootless(t) && IsLeaf(b, p) && "root" in p
    ensures Leafs(t) != Leafs(b)
  {
    assert p in Leafs(b);
    if p in Leafs(t) { RootlessPaths(t, p); }
  }

  lemma RootlessKept(b: Tree)
    requires Mergeable(b) && b.name == "root"
    ensures Leafs(MergeInto(NewRoot(), b).tree) == Leafs(b)
  {
    hide MergeInto, Leafs, Merged, Mergeable, ReplacedBelow;
    MergeIsOverlay(NewRoot(), b);
    NoLeafs(NewRoot());
    OverEmpty(p => ReplacedBelow(b, p), Leafs(b));
  }

  lemma OverEmpty(gone: Path -> bool, b: map<Path, Leaf>)
    ensures Over(map[], gone, b) == b
  {
    var e: map<Path, Leaf> := map[];
    EmptyUnion(map p | p in e && !gone(p) :: e[p], b);
  }
}
