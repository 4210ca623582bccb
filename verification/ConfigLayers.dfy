/** Overlays that succeed although the trees do not agree in kind (operator+= in src/libs/config/yaml_node.h):
    which leaves of the upper tree the result shows. */
module ConfigLayers {
  import opened Paths
  import opened ScalarText
  import opened ConfigTree
  import opened ConfigMerge
  import opened OverlayLaws
  import opened ConfigDoc
  import opened ConfigLoad
  import opened ConfigRuns
  import opened MapFacts

  // ---- What an overlay that succeeds keeps ----

  lemma {:induction false} MergedFits(a: Tree, b: Tree)
    requires Shaped(a) && Shaped(b) && NoConflict(a, b)
    ensures Shaped(Merged(a, b))
    decreases a
  {
    assert !ConflictAt(a, b, []);
    if IsMapLike(a.kind) {
      MergedMapKids(a, b);
      NoConflictKids(a, b);
      forall k | k in Merged(a, b).kids ensures Shaped(Merged(a, b).kids[k]) {
        if k in a.kids && k in b.kids {
          MergedFits(a.kids[k], b.kids[k]);
        } else if k in b.kids {
          CopyShaped(b.kids[k]);
        }
      }
      MergedMapTop(a, b);
    } else if a.kind == SEQUENCE_MAP {
      CopyShaped(b);
      CopyKids(b);
      assert Merged(a, b).kids == Copy(b).kids;
    }
  }

  lemma MergedMapTop(a: Tree, b: Tree)
    requires Shaped(a) && IsMapLike(a.kind) && forall k :: k in Merged(a, b).kids ==> Shaped(Merged(a, b).kids[k])
    ensures Shaped(Merged(a, b))
  {
    MergedMapKids(a, b);
  }

  /** Every overlay of the documents, one after the other, succeeds. */
  predicate OverlaysOk(root: Tree, ds: seq<Tree>)
    decreases |ds|
  {
    ds == [] || (MergeInto(root, ds[0]).ok && OverlaysOk(MergeInto(root, ds[0]).tree, ds[1..]))
  }

  /** Documents that were made from proper keys. */
  ghost predicate ProperDocs(ds: seq<Tree>) {
    forall d :: d in ds ==> Mergeable(d) && d.name == "root"
  }

  lemma {:induction false} LoadSeqOk(fs: FileSystem, q: seq<QueueEntry>, l: Loading)
    requires LoadSeq(fs, q, l).Some?
    ensures OverlaysOk(l.root, Docs(fs, q))
  {
    hide Create, MergeInto, ReadMeta, Includes, ConfigOf, Unreadable;
    if q != [] {
      var l' := LoadEntry(fs, q[0], l).value;
      LoadSeqOk(fs, q[1..], l');
      var d, ds := DocOf(fs, q[0]), Docs(fs, q[1..]);
      if d == [] {
        ConcatEmpty(ds);
      } else {
        assert (d + ds)[0] == d[0] && (d + ds)[1..] == ds;
      }
    }
  }

  lemma MergeTop(a: Tree, d: Tree)
    requires Named(a) && Shaped(a) && IsMapLike(a.kind) && Mergeable(d) && d.name == "root" && MergeInto(a, d).ok
    ensures NoConflict(a, d) && MergeInto(a, d).tree == Merged(a, d)
    ensures Named(Merged(a, d)) && Shaped(Merged(a, d)) && Merged(a, d).kind == a.kind
  {
    MergeNodeIsMerged(a, d);
    MergedNamed(a, d);
    MergedFits(a, d);
    MergedMapKids(a, d);
  }

  /** Overlays of proper documents that all succeed give a tree that is named and shaped. */
  lemma {:induction false} OverlayAllFits(root: Tree, ds: seq<Tree>)
    requires Named(root) && Shaped(root) && IsMapLike(root.kind) && ProperDocs(ds) && OverlaysOk(root, ds)
    ensures var r := OverlayAll(root, ds); Named(r) && Shaped(r) && r.kind == root.kind
    decreases |ds|
  {
    hide Named, Shaped, Mergeable, MergeInto, Merged, NoConflict, OverlayAll;
    if ds == [] {
      OverlayNothing(root);
    } else {
      var d, rest := ds[0], ds[1..];
      assert ds == [d] + rest && d in ds;
      MergeTop(root, d);
      assert ProperDocs(rest) by { forall x | x in rest ensures x in ds { } }
      OverlayAllFits(MergeInto(root, d).tree, rest);
      OverlayAllCons(root, d, rest);
    }
  }

  lemma OverlayNothing(root: Tree)
    ensures OverlayAll(root, []) == root
  {
  }

  // ---- Which leaves of the upper tree the result shows ----

  /** What the lower tree has at a leaf of the upper one lets it through: anything but a node with children or a
      null of another type, unless a sequence of maps above is replaced as a whole. */
  predicate Shown(a: Tree, h: Tree, p: Path)
    decreases p
  {
    if p == [] then IsMapLike(a.kind) ==> !HasKids(a) && a.kind == h.kind
    else a.kind == SEQUENCE_MAP || (p[0] in a.kids && p[0] in h.kids ==> Shown(a.kids[p[0]], h.kids[p[0]], p[1..]))
  }

  ghost predicate AllShown(a: Tree, h: Tree) {
    forall p :: p in Leafs(h) ==> Shown(a, h, p)
  }

  predicate SameLeaf(l: Option<Leaf>, m: Option<Leaf>) {
    l.Some? && m.Some? && SameButType(l.value, m.value)
  }

  lemma ShownHere(a: Tree, h: Tree)
    requires Shaped(a) && Shaped(h) && NoConflict(a, h) && LeafVal(h, []).Some?
    ensures SameLeaf(LeafVal(h, []), LeafVal(Merged(a, h), [])) <==> Shown(a, h, [])
  {
    assert !ConflictAt(a, h, []);
    if IsMapLike(a.kind) {
      MergedMapKids(a, h);
    }
  }

  lemma {:induction false} LeafShown(a: Tree, h: Tree, p: Path)
    requires Shaped(a) && Shaped(h) && NoConflict(a, h) && LeafVal(h, p).Some?
    ensures SameLeaf(LeafVal(h, p), LeafVal(Merged(a, h), p)) <==> Shown(a, h, p)
    decreases p
  {
    hide LeafOf, Merged, Copy, Shaped, LeafVal, NoConflict, SameLeaf;
    if p == [] {
      ShownHere(a, h);
    } else {
      var k := p[0];
      UpperKids(a, h, p);
      LeafValStep(h, p);
      LeafValStep(Merged(a, h), p);
      SameAsItself(LeafVal(h, p));
      ShapedKids(a);
      ShapedKids(h);
      if a.kind == SEQUENCE_MAP {
        MergedSequence(a, h, p);
      } else {
        MergedMapKids(a, h);
        NoConflictKids(a, h);
        if k in a.kids {
          LeafShown(a.kids[k], h.kids[k], p[1..]);
        } else {
          CopyLeafVal(h.kids[k], p[1..]);
        }
      }
    }
  }

  lemma ShapedKids(t: Tree)
    requires Shaped(t)
    ensures forall k :: k in t.kids ==> Shaped(t.kids[k])
  {
  }

  lemma SameAsItself(l: Option<Leaf>)
    ensures l.Some? ==> SameLeaf(l, l)
  {
  }

  /** Above a leaf of the upper tree, the lower tree has a map or a sequence of maps. */
  lemma UpperKids(a: Tree, h: Tree, p: Path)
    requires Shaped(h) && NoConflict(a, h) && LeafVal(h, p).Some? && p != []
    ensures p[0] in h.kids && (IsMapLike(a.kind) || a.kind == SEQUENCE_MAP)
  {
    assert !ConflictAt(a, h, []);
    LeafValStep(h, p);
    assert HasKids(h);
  }

  /** After an overlay that succeeds, the leaves of the upper tree are all there, up to the type of scalars, if and
      only if the lower tree lets every one of them through. */
  lemma WithinIfShown(a: Tree, h: Tree)
    requires Shaped(a) && Shaped(h) && NoConflict(a, h)
    ensures HostWithin(h, Merged(a, h)) <==> AllShown(a, h)
  {
    hide Leafs, LeafVal, Merged, Shaped, NoConflict, Shown, SameButType;
    forall p | p in Leafs(h)
      ensures p in Leafs(Merged(a, h)) && SameButType(Leafs(h)[p], Leafs(Merged(a, h))[p]) <==> Shown(a, h, p)
    {
      NotTheRoot(h);
      LeafsVal(h, p);
      LeafsVal(Merged(a, h), p);
      LeafShown(a, h, p);
    }
  }
}
