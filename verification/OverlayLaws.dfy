/** The laws of overlaying that a reader of the configuration relies on: a right-biased union of
    leaf maps that is idempotent and associative. */
module OverlayLaws {
  import opened Paths
  import opened ScalarText
  import opened ConfigTree
  import opened ConfigMerge
  import opened MapFacts

  /** The leaf at a path, where the empty path means the node itself. */
  function LeafVal(t: Tree, p: Path): Option<Leaf> {
    if Exists(t, p) && !HasKids(Lookup(t, p).value) then Some(LeafOf(Lookup(t, p).value)) else None
  }

  /** Both trees hold the same kind of thing (scalar, list, sequence of maps, map) wherever both
      have a node. */
  ghost predicate Agree(a: Tree, b: Tree)
    decreases a, 1
  {
    || (IsScalarKind(a.kind) && IsScalarKind(b.kind))
    || (a.kind == b.kind == SEQUENCE)
    || (a.kind == b.kind == SEQUENCE_MAP)
    || (IsMapLike(a.kind) && IsMapLike(b.kind) && (HasKids(a) <==> HasKids(b)) && (!HasKids(a) ==> a.kind == b.kind)
        && AgreeBelow(a, b))
  }

  ghost predicate AgreeBelow(a: Tree, b: Tree)
    decreases a, 0
  {
    forall k :: k in a.kids && k in b.kids ==> Agree(a.kids[k], b.kids[k])
  }

  ghost predicate ShapedBelow(t: Tree) {
    forall k :: k in t.kids ==> Shaped(t.kids[k])
  }

  /** The path is at or below a sequence of maps of b, which replaces whatever was there. */
  predicate Replaced(b: Tree, p: Path)
    decreases p
  {
    b.kind == SEQUENCE_MAP || ReplacedBelow(b, p)
  }

  predicate ReplacedBelow(b: Tree, p: Path)
    decreases p, 0
  {
    p != [] && p[0] in b.kids && Replaced(b.kids[p[0]], p[1..])
  }

  lemma {:induction false} CopyLeafVal(n: Tree, p: Path)
    requires Shaped(n)
    ensures LeafVal(Copy(n), p) == LeafVal(n, p)
    decreases p
  {
    CopyKids(n);
    if p != [] && p[0] in n.kids {
      CopyLeafVal(n.kids[p[0]], p[1..]);
    }
  }

  lemma LeafValStep(t: Tree, p: Path)
    requires p != []
    ensures LeafVal(t, p) == if p[0] in t.kids then LeafVal(t.kids[p[0]], p[1..]) else None
    ensures ReplacedBelow(t, p) <==> p[0] in t.kids && Replaced(t.kids[p[0]], p[1..])
  {
  }

  lemma {:induction false} MergedLeafVal(a: Tree, b: Tree, p: Path)
    requires Shaped(a) && Shaped(b) && Agree(a, b)
    ensures LeafVal(Merged(a, b), p) ==
            if LeafVal(b, p).Some? then LeafVal(b, p) else if Replaced(b, p) then None else LeafVal(a, p)
    decreases p, 1
  {
    if p == [] {
      MergedTop(a, b);
    } else if IsMapLike(a.kind) {
      MergedLeafValBelow(a, b, p);
    } else if a.kind == SEQUENCE_MAP {
      MergedSequence(a, b, p);
    } else {
      NoKids(a, p);
      NoKids(b, p);
      NoKids(Merged(a, b), p);
    }
  }

  lemma MergedTop(a: Tree, b: Tree)
    requires Shaped(a) && Shaped(b) && Agree(a, b)
    ensures LeafVal(Merged(a, b), []) ==
            if LeafVal(b, []).Some? then LeafVal(b, []) else if Replaced(b, []) then None else LeafVal(a, [])
  {
    if IsMapLike(a.kind) {
      MergedMapKids(a, b);
    }
  }

  lemma NoKids(t: Tree, p: Path)
    requires !HasKids(t) && p != []
    ensures LeafVal(t, p).None? && !ReplacedBelow(t, p)
  {
  }

  lemma MergedSequence(a: Tree, b: Tree, p: Path)
    requires Shaped(b) && a.kind == SEQUENCE_MAP && p != []
    ensures LeafVal(Merged(a, b), p) == LeafVal(b, p)
  {
    assert Merged(a, b).kids == Copy(b).kids;
    CopyLeafVal(b, p);
    LeafValStep(Merged(a, b), p);
    LeafValStep(Copy(b), p);
  }

  lemma {:induction false} MergedLeafValBelow(a: Tree, b: Tree, p: Path)
    requires IsMapLike(a.kind) && ShapedBelow(a) && ShapedBelow(b) && AgreeBelow(a, b) && p != []
    ensures LeafVal(Merged(a, b), p) ==
            if LeafVal(b, p).Some? then LeafVal(b, p) else if ReplacedBelow(b, p) then None else LeafVal(a, p)
    decreases p, 0
  {
    hide LeafVal, Lookup, Exists, Merged, Copy, Shaped, Agree, Replaced, ReplacedBelow;
    MergedMapKids(a, b);
    LeafValStep(a, p);
    LeafValStep(b, p);
    LeafValStep(Merged(a, b), p);
    var k := p[0];
    if k in a.kids && k in b.kids {
      MergedLeafVal(a.kids[k], b.kids[k], p[1..]);
    } else if k in b.kids {
      CopyLeafVal(b.kids[k], p[1..]);
    }
  }

  lemma {:induction false} AgreeNoConflict(a: Tree, b: Tree, p: Path)
    requires Shaped(a) && Agree(a, b)
    ensures !ConflictAt(a, b, p)
    decreases p
  {
    if p != [] && IsMapLike(a.kind) && p[0] in a.kids && p[0] in b.kids {
      AgreeNoConflict(a.kids[p[0]], b.kids[p[0]], p[1..]);
    }
  }

  lemma AgreeBelowNoConflict(a: Tree, b: Tree)
    requires IsMapLike(a.kind) && ShapedBelow(a) && AgreeBelow(a, b)
    ensures NoConflict(a, b)
  {
    forall p ensures !ConflictAt(a, b, p) {
      if p != [] && p[0] in a.kids && p[0] in b.kids {
        AgreeNoConflict(a.kids[p[0]], b.kids[p[0]], p[1..]);
      }
    }
  }

  /** The leaf map of a with everything a sequence of maps in b replaces taken out, overridden by b. */
  function Overlay(a: map<Path, Leaf>, b: Tree): map<Path, Leaf> {
    Over(a, p => ReplacedBelow(b, p), Leafs(b))
  }

  /** The requirements on two roots for the second to be overlaid on the first. */
  ghost predicate Compatible(a: Tree, b: Tree) {
    IsMapLike(a.kind) && ShapedBelow(a) && Mergeable(b) && b.name == "root" && AgreeBelow(a, b)
  }

  lemma LeafsVal(t: Tree, p: Path)
    requires p != []
    ensures p in Leafs(t) <==> LeafVal(t, p).Some?
    ensures p in Leafs(t) ==> LeafVal(t, p) == Some(Leafs(t)[p])
  {
  }

  /** Overlaying one document root on another succeeds, every leaf of b wins, every other leaf of a
      survives, and a sequence of maps in b replaces the whole one in a. */
  lemma MergeIsOverlay(a: Tree, b: Tree)
    requires Compatible(a, b)
    ensures MergeInto(a, b) == Outcome(Merged(a, b), true)
    ensures Leafs(MergeInto(a, b).tree) == Overlay(Leafs(a), b)
  {
    AgreeBelowNoConflict(a, b);
    MergeNodeIsMerged(a, b);
    var l, r := Leafs(Merged(a, b)), Overlay(Leafs(a), b);
    hide *;
    forall p ensures p in l <==> p in r ensures p in l ==> l[p] == r[p] {
      OverlayAt(a, b, p);
    }
    assert l.Keys == r.Keys;
    MapExt(l, r);
  }

  lemma OverlayAt(a: Tree, b: Tree, p: Path)
    requires Compatible(a, b)
    ensures p in Leafs(Merged(a, b)) <==> p in Overlay(Leafs(a), b)
    ensures p in Leafs(Merged(a, b)) ==> Leafs(Merged(a, b))[p] == Overlay(Leafs(a), b)[p]
  {
    hide Leafs, LeafVal, Merged, ReplacedBelow, AgreeBelow, Mergeable, ShapedBelow;
    if p == [] {
      NotTheRoot(Merged(a, b));
      NotTheRoot(a);
      NotTheRoot(b);
    } else {
      ShapedParts(b);
      MergedLeafValBelow(a, b, p);
      LeafsVal(a, p);
      LeafsVal(b, p);
      LeafsVal(Merged(a, b), p);
    }
  }

  lemma NotTheRoot(t: Tree)
    ensures [] !in Leafs(t)
  {
  }

  lemma ShapedParts(t: Tree)
    requires Mergeable(t)
    ensures ShapedBelow(t)
  {
  }

  // ---- Merging keeps agreement ----

  lemma {:induction false} CopyAgree(b: Tree, c: Tree)
    requires Agree(b, c)
    ensures Agree(Copy(b), c)
    decreases b
  {
    CopyKids(b);
    forall k | k in b.kids && k in c.kids && Agree(b.kids[k], c.kids[k]) ensures Agree(Copy(b).kids[k], c.kids[k]) {
      CopyAgree(b.kids[k], c.kids[k]);
    }
  }

  lemma {:induction false} AgreeSym(a: Tree, b: Tree)
    requires Agree(a, b)
    ensures Agree(b, a)
    decreases a
  {
    forall k | k in b.kids && k in a.kids && Agree(a.kids[k], b.kids[k]) ensures Agree(b.kids[k], a.kids[k]) {
      AgreeSym(a.kids[k], b.kids[k]);
    }
  }

  lemma {:induction false} CopyShaped(n: Tree)
    requires Shaped(n)
    ensures Shaped(Copy(n))
    decreases n
  {
    CopyKids(n);
    forall k | k in n.kids ensures Shaped(Copy(n).kids[k]) {
      CopyShaped(n.kids[k]);
    }
  }

  lemma {:induction false} MergedAgree(a: Tree, b: Tree, c: Tree)
    requires Agree(a, b) && Agree(a, c) && Agree(b, c)
    ensures Agree(Merged(a, b), c)
    decreases a, 1
  {
    if IsMapLike(a.kind) {
      MergedMapKids(a, b);
      MergedAgreeBelow(a, b, c);
    }
  }

  lemma {:induction false} MergedAgreeBelow(a: Tree, b: Tree, c: Tree)
    requires IsMapLike(a.kind) && AgreeBelow(a, b) && AgreeBelow(a, c) && AgreeBelow(b, c)
    ensures AgreeBelow(Merged(a, b), c)
    decreases a, 0
  {
    MergedMapKids(a, b);
    forall k | k in Merged(a, b).kids && k in c.kids ensures Agree(Merged(a, b).kids[k], c.kids[k]) {
      if k in a.kids && k in b.kids {
        MergedAgree(a.kids[k], b.kids[k], c.kids[k]);
      } else if k in b.kids {
        CopyAgree(b.kids[k], c.kids[k]);
      }
    }
  }

  lemma {:induction false} MergedShaped(a: Tree, b: Tree)
    requires Shaped(a) && Shaped(b) && Agree(a, b)
    ensures Shaped(Merged(a, b))
    decreases a, 1
  {
    if IsMapLike(a.kind) {
      MergedMapKids(a, b);
      MergedShapedBelow(a, b);
    } else if a.kind == SEQUENCE_MAP {
      CopyShaped(b);
      CopyKids(b);
      assert Merged(a, b).kids == Copy(b).kids;
    }
  }

  lemma {:induction false} MergedShapedBelow(a: Tree, b: Tree)
    requires IsMapLike(a.kind) && ShapedBelow(a) && ShapedBelow(b) && AgreeBelow(a, b)
    ensures ShapedBelow(Merged(a, b))
    decreases a, 0
  {
    MergedMapKids(a, b);
    forall k | k in Merged(a, b).kids ensures Shaped(Merged(a, b).kids[k]) {
      if k in a.kids && k in b.kids {
        MergedShaped(a.kids[k], b.kids[k]);
      } else if k in b.kids {
        CopyShaped(b.kids[k]);
      }
    }
  }

  /** An overlay result stays compatible with every document both of its parts were compatible with. */
  lemma MergedCompatible(a: Tree, b: Tree, c: Tree)
    requires Compatible(a, b) && Compatible(a, c) && AgreeBelow(b, c)
    ensures Compatible(Merged(a, b), c)
  {
    MergedMapKids(a, b);
    MergedAgreeBelow(a, b, c);
    MergedShapedBelow(a, b);
  }

  // ---- Idempotence and associativity ----

  lemma {:induction false} AgreeSelf(t: Tree)
    ensures Agree(t, t)
    decreases t
  {
    forall k | k in t.kids ensures Agree(t.kids[k], t.kids[k]) {
      AgreeSelf(t.kids[k]);
    }
  }

  /** Overlaying the same document twice is overlaying it once. */
  lemma OverlayIdempotent(a: Tree, b: Tree)
    requires Compatible(a, b)
    ensures Compatible(Merged(a, b), b)
    ensures Leafs(MergeInto(MergeInto(a, b).tree, b).tree) == Leafs(MergeInto(a, b).tree)
  {
    AgreeSelf(b);
    assert AgreeBelow(b, b) by {
      forall k | k in b.kids ensures Agree(b.kids[k], b.kids[k]) { AgreeSelf(b.kids[k]); }
    }
    MergedCompatible(a, b, b);
    MergeIsOverlay(a, b);
    MergeIsOverlay(Merged(a, b), b);
    OverTwice(Leafs(a), p => ReplacedBelow(b, p), Leafs(b));
  }

  lemma {:induction false} ReplacedCopy(n: Tree, p: Path)
    ensures Replaced(Copy(n), p) == Replaced(n, p)
    decreases p
  {
    CopyKids(n);
    if p != [] && p[0] in n.kids {
      ReplacedCopy(n.kids[p[0]], p[1..]);
    }
  }

  lemma NothingReplaced(t: Tree, p: Path)
    requires t.kind != SEQUENCE_MAP && !HasKids(t)
    ensures !Replaced(t, p)
  {
  }

  lemma {:induction false} ReplacedMerged(a: Tree, b: Tree, p: Path)
    requires Agree(a, b) && Shaped(a) && Shaped(b)
    ensures Replaced(Merged(a, b), p) <==> Replaced(a, p) || Replaced(b, p)
    decreases p, 1
  {
    if IsMapLike(a.kind) {
      MergedMapKids(a, b);
      ReplacedMergedBelow(a, b, p);
      assert Merged(a, b).kind == a.kind;
    } else if a.kind != SEQUENCE_MAP {
      NothingReplaced(a, p);
      NothingReplaced(b, p);
      NothingReplaced(Merged(a, b), p);
    }
  }

  lemma {:induction false} ReplacedMergedBelow(a: Tree, b: Tree, p: Path)
    requires IsMapLike(a.kind) && AgreeBelow(a, b) && ShapedBelow(a) && ShapedBelow(b)
    ensures ReplacedBelow(Merged(a, b), p) <==> ReplacedBelow(a, p) || ReplacedBelow(b, p)
    decreases p, 0
  {
    MergedMapKids(a, b);
    if p != [] && p[0] in b.kids {
      if p[0] in a.kids {
        ReplacedMerged(a.kids[p[0]], b.kids[p[0]], p[1..]);
      } else {
        ReplacedCopy(b.kids[p[0]], p[1..]);
      }
    }
  }

  lemma {:induction false} MergedNamed(a: Tree, b: Tree)
    requires Named(a) && Named(b)
    ensures Named(Merged(a, b)) && Merged(a, b).name == a.name
    decreases a
  {
    CopyNamed(b);
    CopyKids(b);
    if IsMapLike(a.kind) {
      MergedMapKids(a, b);
      forall k | k in Merged(a, b).kids
        ensures Merged(a, b).kids[k].name == k && IsKey(k) && Named(Merged(a, b).kids[k])
      {
        if k in a.kids && k in b.kids { MergedNamed(a.kids[k], b.kids[k]); }
      }
    } else if a.kind == SEQUENCE_MAP {
      assert Merged(a, b).kids == Copy(b).kids;
    }
  }

  lemma {:induction false} CopyNamed(b: Tree)
    requires Named(b)
    ensures Named(Copy(b))
    decreases b
  {
    CopyKids(b);
    forall k | k in b.kids ensures Copy(b).kids[k].name == k && IsKey(k) && Named(Copy(b).kids[k]) {
      CopyNamed(b.kids[k]);
    }
  }

  lemma OverlayTop(b: Tree, c: Tree)
    requires Compatible(b, c) && Mergeable(b)
    ensures Named(Merged(b, c)) && Merged(b, c).name == b.name && Rootless(Merged(b, c))
    ensures IsMapLike(Merged(b, c).kind) && Merged(b, c).scalar == b.scalar && (HasKids(b) ==> HasKids(Merged(b, c)))
  {
    MergedNamed(b, c);
    MergeIsOverlay(b, c);
    MergeIntoRootless(b, c);
    MergedMapKids(b, c);
  }

  lemma ShapedIf(t: Tree)
    requires ShapedBelow(t) && IsMapLike(t.kind) && (!HasKids(t) ==> t.scalar == "")
    ensures Shaped(t)
  {
  }

  lemma AgreeBelowSym(a: Tree, b: Tree)
    requires AgreeBelow(a, b)
    ensures AgreeBelow(b, a)
  {
    forall k | k in b.kids && k in a.kids ensures Agree(b.kids[k], a.kids[k]) {
      AgreeSym(a.kids[k], b.kids[k]);
    }
  }

  /** Two overlays that are put together first can be overlaid as one. */
  lemma MergedIsOverlay(a: Tree, b: Tree, c: Tree)
    requires Compatible(a, b) && Compatible(a, c) && Compatible(b, c)
    ensures Compatible(a, Merged(b, c))
  {
    hide Compatible, AgreeBelow, ShapedBelow, Rootless, Named, Shaped, Merged, MergeInto;
    CompatibleParts(a, b);
    CompatibleParts(a, c);
    CompatibleParts(b, c);
    OverlayTop(b, c);
    MergedShapedBelow(b, c);
    ShapedTopOf(b);
    ShapedIf(Merged(b, c));
    AgreeBelowSym(a, b);
    AgreeBelowSym(a, c);
    AgreeBelowSym(b, c);
    MergedAgreeBelow(b, c, a);
    AgreeBelowSym(Merged(b, c), a);
    CompatibleIf(a, Merged(b, c));
  }

  lemma CompatibleParts(a: Tree, b: Tree)
    requires Compatible(a, b)
    ensures IsMapLike(a.kind) && ShapedBelow(a) && Mergeable(b) && ShapedBelow(b) && b.name == "root"
            && AgreeBelow(a, b)
  {
  }

  lemma CompatibleIf(a: Tree, b: Tree)
    requires IsMapLike(a.kind) && ShapedBelow(a) && Mergeable(b) && b.name == "root" && AgreeBelow(a, b)
    ensures Compatible(a, b)
  {
  }

  lemma ShapedTopOf(t: Tree)
    requires Shaped(t)
    ensures IsContainer(t.kind) && !HasKids(t) ==> t.scalar == ""
  {
  }

  /** Three mutually compatible documents give the same leaves however the overlays are grouped:
      (a += b) += c and a += (b += c) both succeed and agree. */
  lemma OverlayAssociative(a: Tree, b: Tree, c: Tree)
    requires Compatible(a, b) && Compatible(a, c) && Compatible(b, c)
    ensures MergeInto(MergeInto(a, b).tree, c).ok && MergeInto(a, MergeInto(b, c).tree).ok
    ensures Leafs(MergeInto(MergeInto(a, b).tree, c).tree) == Leafs(MergeInto(a, MergeInto(b, c).tree).tree)
  {
    hide Compatible, Leafs, Merged, MergeInto, Overlay, AgreeBelow, Mergeable;
    CompatibleParts(a, b);
    CompatibleParts(b, c);
    MergedCompatible(a, b, c);
    MergedIsOverlay(a, b, c);
    MergeIsOverlay(a, b);
    MergeIsOverlay(b, c);
    MergeIsOverlay(Merged(a, b), c);
    MergeIsOverlay(a, Merged(b, c));
    Regrouped(a, b, c);
  }

  lemma Regrouped(a: Tree, b: Tree, c: Tree)
    requires Compatible(b, c) && Mergeable(b)
    ensures Overlay(Overlay(Leafs(a), b), c) == Overlay(Leafs(a), Merged(b, c))
  {
    MergeIsOverlay(b, c);
    var gone, gone', either := p => ReplacedBelow(b, p), p => ReplacedBelow(c, p), p => ReplacedBelow(Merged(b, c), p);
    forall p ensures either(p) <==> gone(p) || gone'(p) {
      ReplacedMergedBelow(b, c, p);
    }
    OverAssociative(Leafs(a), gone, Leafs(b), gone', Leafs(c), either);
  }
}
