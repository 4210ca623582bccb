/** What a restart makes of a run: the host file is read again and overlaid on the other configuration
    files (read_yaml_config in src/libs/config/yaml.cpp, operator+= in src/libs/config/yaml_node.h). */
module ConfigRestart {
  import opened Paths
  import opened ScalarText
  import opened ConfigTree
  import opened ConfigMerge
  import opened OverlayLaws
  import opened ConfigDoc
  import opened EmitReread
  import opened RootName
  import opened ConfigRuns
  import opened MapFacts

  /** The effective tree after the next start, given the tree of all other files; None where the load throws. */
  function Restarted(base: Tree, file: Option<Doc>): Option<Tree> {
    var host := Reread(file);
    if host.None? then None
    else
      var r := MergeInto(base, host.value);
      if r.ok then Some(r.tree) else None
  }

  /** What the tree of the other files is like, as every load of well-formed documents leaves it. */
  ghost predicate IsBase(t: Tree) {
    IsMapLike(t.kind) && ShapedBelow(t) && Rootless(t)
  }

  /** A restart with the host tree as it would be written restores the effective leaves, types included. */
  ghost predicate Survives(base: Tree, root: Tree, host: Tree) {
    var t := Restarted(base, Emit(host));
    t.Some? && Leafs(t.value) == Leafs(root)
  }

  // ---- What the load computes, path by path ----

  /** The overlay can get to p: on the way there are maps, nulls or nothing, at p no list and no sequence
      of maps. */
  predicate Open(b: Tree, p: Path)
    decreases p
  {
    if p == [] then IsScalarKind(b.kind) || IsMapLike(b.kind)
    else IsMapLike(b.kind) && (p[0] in b.kids ==> Open(b.kids[p[0]], p[1..]))
  }

  /** The overlay can get to p, and at p there is a scalar or nothing. */
  predicate Settable(b: Tree, p: Path) {
    Open(b, p) && (Exists(b, p) ==> IsScalarKind(Lookup(b, p).value.kind))
  }

  predicate HasBelow(m: map<Path, Leaf>, p: Path) {
    exists q :: q in m && p < q
  }

  /** The leaf after a restart, given the leaves of the host tree: a host leaf as its text is typed, unless the
      other files have a null there; nothing where the host leaves need a map; else the leaf of the other files. */
  function RestartLeaf(base: Tree, host: map<Path, Leaf>, p: Path): Option<Leaf> {
    if p in host then
      if Exists(base, p) && !IsScalarKind(Lookup(base, p).value.kind) then LeafVal(base, p)
      else Some(Leaf(ScalarKind(host[p].text), host[p].text, []))
    else if HasBelow(host, p) then None
    else LeafVal(base, p)
  }

  function At(m: map<Path, Leaf>, p: Path): Option<Leaf> {
    if p in m then Some(m[p]) else None
  }

  /** Every host leaf can be overlaid, and every path then has its effective leaf. */
  ghost predicate Restored(base: Tree, root: map<Path, Leaf>, host: map<Path, Leaf>) {
    && (forall p :: p in host ==> "root" !in p && Open(base, p))
    && (forall p :: p != [] ==> RestartLeaf(base, host, p) == At(root, p))
  }

  /** The same leaf from the node of the host tree. */
  function NodeLeaf(a: Tree, h: Tree, p: Path): Option<Leaf> {
    if LeafVal(h, p).Some? then
      var text := Lookup(h, p).value.scalar;
      if Exists(a, p) && !IsScalarKind(Lookup(a, p).value.kind) then LeafVal(a, p)
          else Some(Leaf(ScalarKind(text), text, []))
    else if Exists(h, p) then None
    else LeafVal(a, p)
  }

  ghost predicate AllOpen(a: Tree, h: Tree) {
    forall p :: LeafVal(h, p).Some? ==> Open(a, p)
  }

  lemma AllOpenKids(a: Tree, h: Tree)
    requires HasKids(h) && IsMapLike(a.kind)
    ensures AllOpen(a, h) <==> forall k :: k in a.kids && k in h.kids ==> AllOpen(a.kids[k], h.kids[k])
  {
    hide LeafVal, Open;
    forall k, q | k in a.kids && k in h.kids && LeafVal(h.kids[k], q).Some?
      ensures LeafVal(h, [k] + q).Some? && (Open(a, [k] + q) <==> Open(a.kids[k], q))
    {
      assert ([k] + q)[1..] == q;
      LeafValStep(h, [k] + q);
      OpenStep(a, [k] + q);
    }
    forall p | LeafVal(h, p).Some?
      ensures p != [] && p[0] in h.kids && LeafVal(h.kids[p[0]], p[1..]).Some?
      ensures Open(a, p) <==> (p[0] in a.kids ==> Open(a.kids[p[0]], p[1..]))
    {
      if p == [] { InnerNoLeaf(h); } else {
        LeafValStep(h, p);
        OpenStep(a, p);
      }
    }
  }

  lemma InnerNoLeaf(h: Tree)
    requires HasKids(h)
    ensures LeafVal(h, []).None?
  {
  }

  lemma OpenStep(a: Tree, p: Path)
    requires p != []
    ensures Open(a, p) <==> IsMapLike(a.kind) && (p[0] in a.kids ==> Open(a.kids[p[0]], p[1..]))
  {
  }

  /** What was read back can be merged exactly if the overlay can get to every leaf. */
  lemma {:induction false} ReadBackConflicts(a: Tree, h: Tree, name: string)
    ensures NoConflict(a, ReadBack(h, name)) <==> AllOpen(a, h)
    decreases h
  {
    if !HasKids(h) {
      ScalarConflicts(a, h, name);
    } else if IsMapLike(a.kind) {
      hide NoConflict, AllOpen, ReadBack;
      ReadBackKids(h, name);
      NoConflictKids(a, ReadBack(h, name));
      AllOpenKids(a, h);
      forall k | k in a.kids && k in h.kids
          ensures NoConflict(a.kids[k], ReadBack(h, name).kids[k]) <==> AllOpen(a.kids[k], h.kids[k]) {
        ReadBackConflicts(a.kids[k], h.kids[k], k);
      }
    } else {
      var p := SomeLeaf(h);
      assert LeafVal(h, p).Some? && !Open(a, p);
      assert ConflictAt(a, ReadBack(h, name), []);
    }
  }

  lemma ScalarConflicts(a: Tree, h: Tree, name: string)
    requires !HasKids(h)
    ensures NoConflict(a, ReadBack(h, name)) <==> AllOpen(a, h)
  {
    var r := ReadBack(h, name);
    assert LeafVal(h, []).Some? && forall p :: LeafVal(h, p).Some? ==> p == [];
    assert AllOpen(a, h) <==> Open(a, []);
    assert forall p :: ConflictAt(a, r, p) ==> p == [];
    assert NoConflict(a, r) <==> !ConflictAt(a, r, []);
  }

  lemma {:induction false} ReadBackShaped(h: Tree, name: string)
    ensures Shaped(ReadBack(h, name))
    decreases h
  {
    if HasKids(h) {
      ReadBackKids(h, name);
      forall k | k in h.kids ensures Shaped(ReadBack(h, name).kids[k]) {
        ReadBackShaped(h.kids[k], k);
      }
    }
  }

  lemma {:induction false} ReadBackMergeable(h: Tree, name: string)
    requires Named(h) && Rootless(h)
    ensures Named(ReadBack(h, name)) && Rootless(ReadBack(h, name)) && ReadBack(h, name).name == name
    decreases h
  {
    if HasKids(h) {
      ReadBackKids(h, name);
      forall k | k in h.kids
        ensures Named(ReadBack(h, name).kids[k]) && Rootless(ReadBack(h, name).kids[k])
                && ReadBack(h, name).kids[k].name == k
      {
        ReadBackMergeable(h.kids[k], k);
      }
    }
  }

  lemma CopyReadBack(h: Tree, name: string, p: Path)
    ensures LeafVal(Copy(ReadBack(h, name)), p) ==
            if LeafVal(h, p).Some? then Some(Leaf(ScalarKind(Lookup(h, p).value.scalar), Lookup(h, p).value.scalar, []))
                else None
  {
    ReadBackShaped(h, name);
    CopyLeafVal(ReadBack(h, name), p);
    ReadBackLeaf(h, name, p);
  }

  lemma {:induction false} MergedReadBack(a: Tree, h: Tree, name: string, p: Path)
    requires Shaped(a) && AllOpen(a, h)
    ensures LeafVal(Merged(a, ReadBack(h, name)), p) == NodeLeaf(a, h, p)
    decreases p, 1
  {
    if !HasKids(h) {
      MergedScalar(a, h, name, p);
    } else {
      assert IsMapLike(a.kind) by {
        var q := SomeLeaf(h);
        assert LeafVal(h, q).Some?;
      }
      if p == [] {
        ReadBackKids(h, name);
        MergedMapKids(a, ReadBack(h, name));
      } else {
        MergedReadBackBelow(a, h, name, p);
      }
    }
  }

  lemma MergedScalar(a: Tree, h: Tree, name: string, p: Path)
    requires Shaped(a) && AllOpen(a, h) && !HasKids(h)
    ensures LeafVal(Merged(a, ReadBack(h, name)), p) == NodeLeaf(a, h, p)
  {
    assert LeafVal(h, []).Some? && Open(a, []);
    if IsMapLike(a.kind) {
      MergedMapKids(a, ReadBack(h, name));
      MapExt(Merged(a, ReadBack(h, name)).kids, a.kids);
    } else if p != [] {
      NoKids(a, p);
      NoKids(Merged(a, ReadBack(h, name)), p);
    }
  }

  lemma NodeLeafStep(a: Tree, h: Tree, p: Path)
    requires p != []
    ensures p[0] in a.kids && p[0] in h.kids ==> NodeLeaf(a, h, p) == NodeLeaf(a.kids[p[0]], h.kids[p[0]], p[1..])
    ensures p[0] in a.kids && p[0] !in h.kids ==> NodeLeaf(a, h, p) == LeafVal(a, p)
    ensures p[0] !in a.kids && p[0] in h.kids ==>
              NodeLeaf(a, h, p) == if LeafVal(h.kids[p[0]], p[1..]).Some? then
                                     var text := Lookup(h.kids[p[0]], p[1..]).value.scalar;
                                     Some(Leaf(ScalarKind(text), text, []))
                                   else None
    ensures p[0] !in a.kids && p[0] !in h.kids ==> NodeLeaf(a, h, p).None?
  {
    hide ScalarKind, LeafOf;
  }

  lemma {:induction false} MergedReadBackBelow(a: Tree, h: Tree, name: string, p: Path)
    requires IsMapLike(a.kind) && ShapedBelow(a) && AllOpen(a, h) && HasKids(h) && p != []
    ensures LeafVal(Merged(a, ReadBack(h, name)), p) == NodeLeaf(a, h, p)
    decreases p, 0
  {
    hide LeafVal, Lookup, Exists, Merged, Copy, Shaped, ReadBack, NodeLeaf, AllOpen, ScalarKind;
    var b, k := ReadBack(h, name), p[0];
    ReadBackKids(h, name);
    MergedMapKids(a, b);
    AllOpenKids(a, h);
    LeafValStep(a, p);
    LeafValStep(Merged(a, b), p);
    NodeLeafStep(a, h, p);
    if k in a.kids && k in h.kids {
      MergedReadBack(a.kids[k], h.kids[k], k, p[1..]);
    } else if k in h.kids {
      CopyReadBack(h.kids[k], k, p[1..]);
    }
  }

  // ---- Restarting, leaf by leaf ----

  lemma RereadTree(host: Tree)
    requires Named(host)
    ensures Reread(Emit(host)) == Some(if HasKids(host) then ReadBack(host, "root") else NewRoot())
  {
    hide Named;
    if HasKids(host) {
      CreateEmitted(host, "root");
      assert EmitMap(host) == EmitValue(host);
    }
  }

  lemma EmptyOverlay(base: Tree)
    requires IsMapLike(base.kind)
    ensures MergeInto(base, NewRoot()) == Outcome(base, true)
  {
  }

  lemma LeafsOpen(a: Tree, h: Tree)
    requires HasKids(h)
    ensures AllOpen(a, h) <==> forall p :: p in Leafs(h) ==> Open(a, p)
  {
    hide LeafVal, Leafs, Open;
    InnerNoLeaf(h);
    forall p | p != [] ensures p in Leafs(h) <==> LeafVal(h, p).Some? { LeafsVal(h, p); }
    NotTheRoot(h);
  }

  /** The load after a restart succeeds exactly if the overlay can get to every host leaf, and then every
      path has the leaf that the two trees determine. */
  lemma RestartedLeafs(base: Tree, host: Tree)
    requires IsBase(base) && Named(host) && Rootless(host)
    ensures Restarted(base, Emit(host)).Some? <==> forall p :: p in Leafs(host) ==> Open(base, p)
    ensures Restarted(base, Emit(host)).Some? ==>
              forall p :: p != [] ==> LeafVal(Restarted(base, Emit(host)).value, p) == NodeLeaf(base, host, p)
  {
    hide Named, Rootless, Shaped, Leafs, Open, LeafVal, NodeLeaf, MergeInto, MergeNode, Merged, Emit, Reread, ReadBack,
         NoConflict;
    RereadTree(host);
    if HasKids(host) {
      var h := ReadBack(host, "root");
      ReadBackMergeable(host, "root");
      ReadBackShaped(host, "root");
      ReadBackConflicts(base, host, "root");
      LeafsOpen(base, host);
      MergeNodeIsMerged(base, h);
      MergeIntoRoot(base, h);
      if AllOpen(base, host) {
        forall p | p != [] ensures LeafVal(Merged(base, h), p) == NodeLeaf(base, host, p) {
          MergedReadBackBelow(base, host, "root", p);
        }
      }
    } else {
      EmptyOverlay(base);
      NoLeafs(host);
      forall p | p != [] ensures LeafVal(base, p) == NodeLeaf(base, host, p) { NoKidsLeaf(base, host, p); }
    }
  }

  lemma MergeIntoRoot(a: Tree, b: Tree)
    requires b.name == "root"
    ensures MergeInto(a, b) == MergeNode(a, b)
  {
  }

  lemma NoKidsLeaf(a: Tree, h: Tree, p: Path)
    requires !HasKids(h) && p != []
    ensures NodeLeaf(a, h, p) == LeafVal(a, p)
  {
    NoKids(h, p);
  }

  lemma InteriorBelow(t: Tree, p: Path)
    requires p != []
    ensures IsInterior(t, p) <==> HasBelow(Leafs(t), p)
  {
    if IsInterior(t, p) {
      var q := SomeLeaf(Lookup(t, p).value);
      LookupSplit(t, p, q);
      assert p + q in Leafs(t) && p < p + q;
    } else if HasBelow(Leafs(t), p) {
      var q :| q in Leafs(t) && p < q;
      assert p + q[|p|..] == q;
      LookupSplit(t, p, q[|p|..]);
      assert false;
    }
  }

  lemma {:induction false} OpenKind(b: Tree, p: Path)
    requires Open(b, p) && Exists(b, p)
    ensures IsScalarKind(Lookup(b, p).value.kind) || IsMapLike(Lookup(b, p).value.kind)
    decreases p
  {
    if p != [] {
      OpenKind(b.kids[p[0]], p[1..]);
    }
  }

  /** The node and the leaf of the host tree agree on what a restart gives: lists give neither back. */
  lemma NodeRestart(base: Tree, root: Tree, host: Tree, p: Path)
    requires HostWithin(host, root) && p != [] && (p in Leafs(host) ==> Open(base, p))
    ensures NodeLeaf(base, host, p) == At(Leafs(root), p) <==> RestartLeaf(base, Leafs(host), p) == At(Leafs(root), p)
  {
    hide Leafs, ScalarKind, Open, HasBelow;
    LeafsVal(host, p);
    InteriorBelow(host, p);
    if p in Leafs(host) && Exists(base, p) {
      OpenKind(base, p);
    }
  }

  lemma RootlessLeafs(t: Tree)
    ensures Rootless(t) <==> forall p :: p in Leafs(t) ==> "root" !in p
  {
    hide Rootless;
    if Rootless(t) {
      forall p | p in Leafs(t) ensures "root" !in p { RootlessPaths(t, p); }
    } else {
      var p := RootPath(t);
      assert p in Leafs(t);
    }
  }

  lemma LeafsAt(t: Tree, m: map<Path, Leaf>)
    requires [] !in m
    ensures Leafs(t) == m <==> forall p :: p != [] ==> LeafVal(t, p) == At(m, p)
  {
    hide LeafVal, Leafs;
    NotTheRoot(t);
    forall p | p != [] ensures LeafVal(t, p) == At(Leafs(t), p) { LeafsVal(t, p); }
    if forall p :: p != [] ==> LeafVal(t, p) == At(m, p) {
      assert forall p :: At(Leafs(t), p) == At(m, p);
      assert Leafs(t).Keys == m.Keys by {
        forall p ensures p in Leafs(t) <==> p in m { assert At(Leafs(t), p) == At(m, p); }
      }
      forall p | p in m ensures Leafs(t)[p] == m[p] { assert At(Leafs(t), p) == At(m, p); }
      MapExt(Leafs(t), m);
    }
  }

  /** What survives a restart, in terms of the leaves of the three trees. */
  lemma RestartIsRestored(base: Tree, root: Tree, host: Tree)
    requires IsBase(base) && Sound(root, host)
    ensures Survives(base, root, host) <==> Restored(base, Leafs(root), Leafs(host))
  {
    hide Leafs, LeafVal, NodeLeaf, RestartLeaf, Open, Rootless, ShapedBelow, Emit, Named, HostWithin, MergeInto,
         Restarted;
    RootlessLeafs(host);
    NotTheRoot(root);
    if Rootless(host) {
      RestartedLeafs(base, host);
      var t := Restarted(base, Emit(host));
      if t.Some? {
        LeafsAt(t.value, Leafs(root));
        forall p | p != []
            ensures NodeLeaf(base, host, p) == At(Leafs(root), p) <==>
                    RestartLeaf(base, Leafs(host), p) == At(Leafs(root), p) {
          NodeRestart(base, root, host, p);
        }
      }
    } else {
      RootIsLost(base, root, host);
    }
  }

  lemma RootIsLost(base: Tree, root: Tree, host: Tree)
    requires IsBase(base) && HostWithin(host, root) && !Rootless(host)
    ensures !Survives(base, root, host)
  {
    hide Rootless, Emit, Reread, MergeInto;
    var p := RootPath(host);
    assert p in Leafs(host);
    var h := Reread(Emit(host));
    if h.Some? {
      MergeIntoRootless(base, h.value);
      NotKept(MergeInto(base, h.value).tree, root, p);
    }
  }

  // ---- Setting ----

  lemma {:induction false} NothingBelowOpen(b: Tree, p: Path, q: Path)
    requires Shaped(b) || (IsMapLike(b.kind) && ShapedBelow(b) && p != [])
    requires Settable(b, p) && p < q
    ensures LeafVal(b, q).None?
    decreases p
  {
    if p == [] {
      NoKids(b, q);
    } else if q[0] in b.kids {
      TailPrefix(p, q);
      NothingBelowOpen(b.kids[p[0]], p[1..], q[1..]);
    }
  }

  /** Where a scalar can be overlaid, a restored configuration has no list. */
  lemma RestoredKind(base: Tree, root: map<Path, Leaf>, host: map<Path, Leaf>, p: Path, text: string)
    requires Restored(base, root, host) && Settable(base, p) && p != []
    ensures KindAt(root, p, text) == ScalarKind(text)
  {
    hide ScalarKind, FirstKind, Open, HasBelow;
    assert RestartLeaf(base, host, p) == At(root, p);
  }

  lemma PutElsewhere(base: Tree, root: map<Path, Leaf>, host: map<Path, Leaf>, p: Path, l: Leaf, m: Leaf, q: Path)
    requires IsBase(base) && Restored(base, root, host) && Within(host, root) && p != [] && q != [] && q != p
    requires Settable(base, p) && !HasBelow(root, p)
    ensures RestartLeaf(base, WithoutPrefixes(host, p)[p := l], q) == At(WithoutPrefixes(root, p)[p := m], q)
  {
    hide LeafVal, Settable, ScalarKind, SameButType;
    var host', root' := WithoutPrefixes(host, p)[p := l], WithoutPrefixes(root, p)[p := m];
    assert RestartLeaf(base, host, q) == At(root, q);
    if q < p {
      assert p in host' && HasBelow(host', q);
    } else if p < q {
      NothingBelowOpen(base, p, q);
      assert q !in root;
      assert !HasBelow(host', q);
    } else {
      BelowElsewhere(host, p, l, q);
    }
  }

  lemma BelowElsewhere(host: map<Path, Leaf>, p: Path, l: Leaf, q: Path)
    requires !(q <= p)
    ensures HasBelow(WithoutPrefixes(host, p)[p := l], q) <==> HasBelow(host, q)
  {
    var host' := WithoutPrefixes(host, p)[p := l];
    if HasBelow(host, q) {
      var r :| r in host && q < r;
      assert !(r < p) && r in host';
    }
  }

  /** A text at p stays restored exactly if the other files leave room for a scalar there. */
  lemma PutRestored(base: Tree, root: map<Path, Leaf>, host: map<Path, Leaf>, p: Path, text: string)
    requires IsBase(base) && Restored(base, root, host) && Within(host, root) && p != [] && !HasBelow(root, p)
    ensures Restored(base, WithoutPrefixes(root, p)[p := Leaf(KindAt(root, p, text), text, [])],
                           WithoutPrefixes(host, p)[p := Leaf(KindAt(host, p, text), text, [])]) <==>
            "root" !in p && Settable(base, p)
  {
    hide LeafVal, KindAt, ScalarKind, Open, Within, IsBase;
    var l, m := Leaf(KindAt(host, p, text), text, []), Leaf(KindAt(root, p, text), text, []);
    var root', host' := WithoutPrefixes(root, p)[p := m], WithoutPrefixes(host, p)[p := l];
    if "root" !in p && Settable(base, p) {
      RestoredKind(base, root, host, p, text);
      forall q | q != [] ensures RestartLeaf(base, host', q) == At(root', q) {
        if q != p { PutElsewhere(base, root, host, p, l, m, q); }
      }
    } else if Restored(base, root', host') {
      assert p in host' && RestartLeaf(base, host', p) == At(root', p);
      LeafKind(base, p);
      assert false;
    }
  }

  lemma LeafKind(b: Tree, p: Path)
    ensures LeafVal(b, p).Some? && !IsScalarKind(Lookup(b, p).value.kind) ==> !IsScalarKind(LeafVal(b, p).value.kind)
  {
  }

  /** A successful set survives a restart exactly if the other files have maps, nulls or nothing on the way to
      the path and a scalar or nothing there, and no key is "root". */
  lemma PutSurvives(base: Tree, c: Config, path: string, text: string)
    requires Inv(c) && IsBase(base) && Survives(base, c.root, c.host) && Split(path) != []
    ensures var r := Do(c, Put(path, text));
            r.ok ==> (Survives(base, r.config.root, r.config.host) <==>
                "root" !in Split(path) && Settable(base, Split(path)))
  {
    hide SetValue, Leafs, Survives, Restored, Settable, Emit, Reread, Stored, Within, Named, WithoutPrefixes, KindAt,
         IsBase, HasBelow, IsInterior;
    var p := Split(path);
    PutBothTrees(c.root, c.host, p, text);
    if !IsInterior(c.root, p) {
      SetValueLeafs(c.root, p, text);
      SetValueLeafs(c.host, p, text);
      RestartIsRestored(base, c.root, c.host);
      RestartIsRestored(base, SetValue(c.root, p, text).tree, SetValue(c.host, p, text).tree);
      InteriorBelow(c.root, p);
      PutRestored(base, Leafs(c.root), Leafs(c.host), p, text);
    }
  }

  /** A set that does not survive either makes the next load throw, exactly if a scalar, list or sequence of
      maps of the other files is in the way, or else is silently lost. */
  lemma PutStopsTheLoad(base: Tree, c: Config, path: string, text: string)
    requires Inv(c) && IsBase(base) && Survives(base, c.root, c.host) && Split(path) != [] && "root" !in Split(path)
    ensures var r := Do(c, Put(path, text));
            r.ok ==> (Restarted(base, Emit(r.config.host)).None? <==> !Open(base, Split(path)))
  {
    hide SetValue, Leafs, Survives, Emit, Reread, Stored, HostWithin, Named, WithoutPrefixes, KindAt, IsBase,
         IsInterior, Open, RestartLeaf, Rootless;
    var p := Split(path);
    PutBothTrees(c.root, c.host, p, text);
    if !IsInterior(c.root, p) {
      RestartIsRestored(base, c.root, c.host);
      RootlessLeafs(c.host);
      InteriorWithin(c.root, c.host, p);
      PutOpens(base, c.host, p, text);
    }
  }

  lemma PutOpens(base: Tree, host: Tree, p: Path, text: string)
    requires IsBase(base) && Named(host) && IsPath(p) && p != [] && "root" !in p && !IsInterior(host, p)
    requires forall q :: q in Leafs(host) ==> "root" !in q && Open(base, q)
    ensures Restarted(base, Emit(SetValue(host, p, text).tree)).None? <==> !Open(base, p)
  {
    hide SetValue, Leafs, Emit, Restarted, Named, KindAt, IsBase, IsInterior, Open, Rootless;
    var h := SetValue(host, p, text).tree;
    SetValueLeafs(host, p, text);
    PutNamed(host, p, text);
    RootlessLeafs(h);
    assert p in Leafs(h);
    RestartedLeafs(base, h);
  }

  /** A list that is set never survives. */
  lemma PutListIsLost(base: Tree, c: Config, path: string, values: seq<string>)
    requires Inv(c) && IsBase(base) && Survives(base, c.root, c.host) && Split(path) != []
    ensures var r := Do(c, PutList(path, values)); r.ok ==> !Survives(base, r.config.root, r.config.host)
  {
    hide SetListAt, Leafs, Survives, Emit, Reread, Stored, HostWithin, Named, WithoutPrefixes, IsBase, IsInterior,
         Restored;
    var p := Split(path);
    PutListBothTrees(c.root, c.host, p, values);
    if !IsInterior(c.root, p) {
      var root, host := SetListAt(c.root, p, values).tree, SetListAt(c.host, p, values).tree;
      SetListLeafs(c.root, p, values);
      SetListLeafs(c.host, p, values);
      RestartIsRestored(base, root, host);
      ListNotRestored(base, Leafs(root), Leafs(host), p);
    }
  }

  lemma ListNotRestored(base: Tree, root: map<Path, Leaf>, host: map<Path, Leaf>, p: Path)
    requires p in host && p in root && root[p].kind == SEQUENCE && p != []
    ensures !Restored(base, root, host)
  {
    hide ScalarKind, HasBelow;
    if Restored(base, root, host) {
      assert RestartLeaf(base, host, p) == At(root, p) && Open(base, p);
      if Exists(base, p) { OpenKind(base, p); }
      assert false;
    }
  }

  // ---- Erasing ----

  /** Whatever leaf the other files have at p or on the way to it is covered by another leaf of the host file. */
  ghost predicate Covered(base: map<Path, Leaf>, host: map<Path, Leaf>, p: Path) {
    forall q :: q in base && q <= p ==> HasBelow(host - {p}, q)
  }

  lemma EraseElsewhere(base: Tree, root: map<Path, Leaf>, host: map<Path, Leaf>, p: Path, q: Path)
    requires Restored(base, root, host) && p in host && q != [] && !(q <= p)
    ensures RestartLeaf(base, host - {p}, q) == At(root - {p}, q)
  {
    hide LeafVal, ScalarKind, Open;
    assert RestartLeaf(base, host, q) == At(root, q);
    if HasBelow(host, q) {
      var r :| r in host && q < r;
      assert r in host - {p};
    }
  }

  lemma EraseUpwards(base: Tree, root: map<Path, Leaf>, host: map<Path, Leaf>, p: Path, q: Path)
    requires Within(host, root) && (forall r :: r in root && r <= p ==> r == p) && q != [] && q <= p
    ensures RestartLeaf(base, host - {p}, q) == At(root - {p}, q) <==> HasBelow(host - {p}, q) || LeafVal(base, q).None?
  {
    hide LeafVal, ScalarKind, HasBelow, SameButType;
  }

  lemma EraseRestored(base: Tree, root: map<Path, Leaf>, host: map<Path, Leaf>, p: Path)
    requires Restored(base, root, host) && Within(host, root) && p in host && p != []
    requires forall r :: r in root && r <= p ==> r == p
    ensures Restored(base, root - {p}, host - {p}) <==> Covered(Leafs(base), host, p)
  {
    hide LeafVal, RestartLeaf, At, Open, HasBelow, Within, Leafs;
    forall q | q != [] && !(q <= p) ensures RestartLeaf(base, host - {p}, q) == At(root - {p}, q) {
      EraseElsewhere(base, root, host, p, q);
    }
    forall q | q != [] && q <= p
      ensures RestartLeaf(base, host - {p}, q) == At(root - {p}, q) <==> HasBelow(host - {p}, q) || q !in Leafs(base)
    {
      EraseUpwards(base, root, host, p, q);
      LeafsVal(base, q);
    }
    NotTheRoot(base);
  }

  /** A successful erase survives a restart exactly if no other file defines the path, and a null of another
      file on the way to it is covered by another host leaf; otherwise the erased value or the null is back. */
  lemma EraseSurvives(base: Tree, c: Config, path: string)
    requires Inv(c) && IsBase(base) && Survives(base, c.root, c.host) && Split(path) != []
    ensures var r := Do(c, Remove(path));
            r.ok ==> (Survives(base, r.config.root, r.config.host) <==>
                Covered(Leafs(base), Leafs(c.host), Split(path)))
  {
    hide ConfigTree.Erase, Leafs, Survives, Restored, Emit, Reread, Stored, Within, Named, IsBase, Covered;
    var p := Split(path);
    EraseBothTrees(c.root, c.host, p);
    EraseLeafs(c.host, p);
    EraseLeafs(c.root, p);
    if ConfigTree.Erase(c.host, p).ok {
      RestartIsRestored(base, c.root, c.host);
      RestartIsRestored(base, ConfigTree.Erase(c.root, p).tree, ConfigTree.Erase(c.host, p).tree);
      NoLeafAbove(c.root, p);
      EraseRestored(base, Leafs(c.root), Leafs(c.host), p);
    }
  }

  lemma NoLeafAbove(t: Tree, p: Path)
    ensures p in Leafs(t) ==> forall r :: r in Leafs(t) && r <= p ==> r == p
  {
    if p in Leafs(t) {
      forall r | r in Leafs(t) && r <= p ensures r == p { PrefixFree(t, r, p); }
    }
  }

  // ---- Runs ----

  /** What there will be on the disk once a pending write is done. */
  function Disk(c: Config): Option<Doc> {
    if c.pending then Emit(c.host) else c.file
  }

  /** Starting again with what is on the disk gives the effective leaves. */
  ghost predicate Restorable(base: Tree, c: Config) {
    var t := Restarted(base, Disk(c));
    t.Some? && Leafs(t.value) == Leafs(c.root)
  }

  /** A step that survives a restart, told from the state before it and the other files. */
  ghost predicate Lasting(base: Tree, c: Config, s: Step) {
    match s
    case Put(path, _) =>
      var p := Split(path);
      p == [] || IsInterior(c.root, p) || ("root" !in p && Settable(base, p))
    case PutList(path, _) => Split(path) == [] || IsInterior(c.root, Split(path))
    case Remove(path) => Split(path) !in Leafs(c.host) || Covered(Leafs(base), Leafs(c.host), Split(path))
    case Lock => true
    case Unlock => true
  }

  lemma TopKeeps(c: Config, s: Step)
    requires (s.Put? || s.PutList? || s.Remove?) && Split(s.path) == []
    ensures Leafs(Do(c, s).config.root) == Leafs(c.root) && Emit(Do(c, s).config.host) == Emit(c.host)
  {
    hide Leafs, Named, Split, ScalarKind, FirstKind, EmitMap;
    match s
    case Put(_, text) =>
      PutAtTop(c.root, text);
      PutAtTop(c.host, text);
    case PutList(_, values) =>
      PutListAtTop(c.root, values);
      PutListAtTop(c.host, values);
    case Remove(_) =>
  }

  /** A step survives a restart exactly if it is lasting. */
  lemma StepSurvives(base: Tree, c: Config, s: Step)
    requires Inv(c) && IsBase(base) && Survives(base, c.root, c.host) && Enabled(c, s)
    ensures Survives(base, Do(c, s).config.root, Do(c, s).config.host) <==> Lasting(base, c, s)
  {
    hide Leafs, Emit, Covered, Settable, Split, IsInterior, SetValue, SetListAt, ConfigTree.Erase, Stored, Sound,
         Restarted, IsBase;
    match s
    case Put(path, text) =>
      PutBothTrees(c.root, c.host, Split(path), text);
      if Split(path) == [] { TopKeeps(c, s); } else { PutSurvives(base, c, path, text); }
    case PutList(path, values) =>
      PutListBothTrees(c.root, c.host, Split(path), values);
      if Split(path) == [] { TopKeeps(c, s); } else { PutListIsLost(base, c, path, values); }
    case Remove(path) =>
      EraseBothTrees(c.root, c.host, Split(path));
      if Split(path) == [] { TopKeeps(c, s); NotTheRoot(c.host); } else {
        EraseLeafs(c.host, Split(path));
        EraseSurvives(base, c, path);
      }
    case Lock =>
    case Unlock =>
  }

  /** From a state that a restart restores, both now and with what is on the disk, a restart restores the state
      after the step exactly if the step is lasting. */
  lemma StepRestores(base: Tree, c: Config, s: Step)
    requires Inv(c) && IsBase(base) && Survives(base, c.root, c.host) && Restorable(base, c) && Enabled(c, s)
    ensures Restorable(base, Do(c, s).config) <==> Lasting(base, c, s)
    ensures Lasting(base, c, s) ==> Survives(base, Do(c, s).config.root, Do(c, s).config.host)
  {
    hide Leafs, Emit, Lasting, Restarted, IsBase, Stored, Sound;
    StepSurvives(base, c, s);
    StepKeeps(c, s);
    if !Do(c, s).ok {
      assert Do(c, s).config == c;
    } else if !s.Lock? && !s.Unlock? {
      StepWrites(c, s);
    }
  }

  lemma StepWrites(c: Config, s: Step)
    requires Inv(c) && !s.Lock? && !s.Unlock? && Do(c, s).ok
    ensures Disk(Do(c, s).config) == Emit(Do(c, s).config.host)
  {
    hide Emit, Stored, Sound, Split, SetValue, SetListAt, ConfigTree.Erase;
  }

  ghost predicate AllLasting(base: Tree, c: Config, steps: seq<Step>)
    decreases |steps|
  {
    steps != [] ==> Lasting(base, c, steps[0]) && AllLasting(base, Do(c, steps[0]).config, steps[1..])
  }

  lemma {:induction false} RunRestores(base: Tree, c: Config, steps: seq<Step>)
    requires Inv(c) && IsBase(base) && Survives(base, c.root, c.host) && Restorable(base, c)
    requires IsRun(c, steps) && AllLasting(base, c, steps)
    ensures Restorable(base, After(c, steps))
    decreases |steps|
  {
    hide Inv, IsBase, Survives, Restorable, Do, Lasting;
    if steps != [] {
      StepKeeps(c, steps[0]);
      StepRestores(base, c, steps[0]);
      RunRestores(base, Do(c, steps[0]).config, steps[1..]);
    }
  }

  /** After any run of lasting steps that ends unlocked, reading the host file again over the other files
      succeeds and gives the effective configuration: the same leaves with the same types. */
  lemma RestartRestores(base: Tree, c: Config, steps: seq<Step>)
    requires Inv(c) && IsBase(base) && Survives(base, c.root, c.host) && Restorable(base, c)
    requires IsRun(c, steps) && AllLasting(base, c, steps)
    ensures var d := After(c, steps);
            !d.locked ==> Restarted(base, d.file).Some? && Leafs(Restarted(base, d.file).value) == Leafs(d.root)
  {
    hide Leafs, Restarted, IsBase, Stored, Sound, Survives, Emit;
    RunKeeps(c, steps);
    RunRestores(base, c, steps);
  }

  // ---- Inputs for which a set does not survive ----

  lemma NothingSetYet(n: Tree)
    requires n.name == "l" && Shaped(n) && Rootless(n)
    ensures var c := OtherFileHolds(n); IsBase(c.root) && Survives(c.root, c.root, c.host)
  {
    hide Leafs, MergeInto, Shaped;
    EmptyOverlay(OtherFileHolds(n).root);
  }

  lemma OpenAtName(n: Tree)
    ensures var b := OtherFileHolds(n).root;
            && (Open(b, ["l"]) <==> IsScalarKind(n.kind) || IsMapLike(n.kind))
            && (Settable(b, ["l"]) <==> IsScalarKind(n.kind))
            && (Open(b, ["l", "x"]) <==> IsMapLike(n.kind) && ("x" in n.kids ==> Open(n.kids["x"], [])))
  {
    var b := OtherFileHolds(n).root;
    assert ["l"][1..] == [] && ["l", "x"][1..] == ["x"] && ["x"][1..] == [];
    OpenStep(b, ["l"]);
    OpenStep(b, ["l", "x"]);
    OpenStep(n, ["x"]);
    assert Lookup(b, ["l"]) == Lookup(n, []);
  }

  /** Another file holds the list [1] and the number 5 is set in its place: the next load throws. */
  lemma SetOverListStopsTheLoad()
    ensures var c := OtherFileHolds(SetList(NewNode("l"), ["1"]));
            var r := Do(c, Put("/l", "5"));
            Inv(c) && Survives(c.root, c.root, c.host) && r.ok && Restarted(c.root, r.config.file).None?
  {
    hide Leafs, Survives, Restarted, Emit, Split, SetValue, IsBase, Open, Stored, Sound, IsInterior;
    var n := SetList(NewNode("l"), ["1"]);
    var c := OtherFileHolds(n);
    SplitName();
    OtherFileInv(n);
    OtherFileLeafs(n);
    NothingSetYet(n);
    OpenAtName(n);
    PutBothTrees(c.root, c.host, ["l"], "5");
    PutStopsTheLoad(c.root, c, "/l", "5");
  }

  /** Another file holds a null and the number 5 is set in its place: the next load succeeds without it. */
  lemma SetOverNullIsLost()
    ensures var c := OtherFileHolds(NewNode("l"));
            var r := Do(c, Put("/l", "5"));
            && Inv(c) && Survives(c.root, c.root, c.host) && r.ok && Restarted(c.root, r.config.file).Some?
            && Leafs(Restarted(c.root, r.config.file).value) != Leafs(r.config.root)
  {
    hide Leafs, Restarted, Emit, Split, SetValue, IsBase, Open, Stored, Sound, IsInterior;
    var n := NewNode("l");
    var c := OtherFileHolds(n);
    SplitName();
    OtherFileInv(n);
    OtherFileLeafs(n);
    NothingSetYet(n);
    OpenAtName(n);
    PutBothTrees(c.root, c.host, ["l"], "5");
    PutStopsTheLoad(c.root, c, "/l", "5");
    PutSurvives(c.root, c, "/l", "5");
  }

  lemma SplitNames()
    ensures Split("/l/x") == ["l", "x"]
  {
    assert Join(["l", "x"]) == "/l/x" by { assert ["l", "x"][1..] == ["x"] && ["x"][1..] == []; }
    SplitJoin(["l", "x"]);
  }

  /** Below such a null, the number survives. */
  lemma SetBelowNullSurvives()
    ensures var c := OtherFileHolds(NewNode("l"));
            var r := Do(c, Put("/l/x", "5"));
            && Inv(c) && r.ok && Restarted(c.root, r.config.file).Some?
            && Leafs(Restarted(c.root, r.config.file).value) == Leafs(r.config.root)
  {
    hide Leafs, Restarted, Emit, Split, SetValue, IsBase, Open, Stored, Sound, IsInterior;
    var n := NewNode("l");
    var c := OtherFileHolds(n);
    SplitNames();
    OtherFileInv(n);
    NothingSetYet(n);
    OpenAtName(n);
    NotBelow(c.root, n);
    PutBothTrees(c.root, c.host, ["l", "x"], "5");
    PutSurvives(c.root, c, "/l/x", "5");
  }

  lemma NotBelow(b: Tree, n: Tree)
    requires b == OtherFileHolds(n).root && "x" !in n.kids
    ensures !Exists(b, ["l", "x"]) && !IsInterior(b, ["l", "x"])
  {
    assert ["l", "x"][1..] == ["x"];
    assert Lookup(b, ["l", "x"]) == Lookup(n, ["x"]);
  }

  /** Another file holds a sequence of maps and a number is set below it: the next load throws. */
  lemma SetBelowSequenceStopsTheLoad()
    ensures var c := OtherFileHolds(AddChild(NewNode("l").(kind := SEQUENCE_MAP), "0", NewNode("0")));
            var r := Do(c, Put("/l/x", "5"));
            Inv(c) && Survives(c.root, c.root, c.host) && r.ok && Restarted(c.root, r.config.file).None?
  {
    hide Leafs, Survives, Restarted, Emit, Split, SetValue, IsBase, Open, Stored, Sound, IsInterior;
    var n := AddChild(NewNode("l").(kind := SEQUENCE_MAP), "0", NewNode("0"));
    var c := OtherFileHolds(n);
    SplitNames();
    NewNodeMergeable("0");
    AddChildMergeable(NewNode("l").(kind := SEQUENCE_MAP), "0", NewNode("0"));
    OtherFileInv(n);
    NothingSetYet(n);
    OpenAtName(n);
    NotBelow(c.root, n);
    PutBothTrees(c.root, c.host, ["l", "x"], "5");
    PutStopsTheLoad(c.root, c, "/l/x", "5");
  }

  lemma KidsHaveLeafs(t: Tree)
    requires HasKids(t)
    ensures Leafs(t) != map[]
  {
    var p := SomeLeaf(t);
    assert p in Leafs(t);
  }

  lemma BothHold(root: Tree, host: Tree, text: string)
    requires !IsInterior(root, ["l"]) && !IsInterior(host, ["l"]) && Leafs(host) == map[] && Leafs(root).Keys == {["l"]}
    ensures Leafs(SetValue(root, ["l"], text).tree).Keys == {["l"]}
    ensures Leafs(SetValue(host, ["l"], text).tree).Keys == {["l"]}
  {
    hide Leafs, SetValue, KindAt, IsInterior;
    SetValueLeafs(root, ["l"], text);
    SetValueLeafs(host, ["l"], text);
  }

  /** Another file holds 1; the value is set to 2 and erased again: it is gone, and 1 is back after a restart. */
  lemma ErasedValueComesBack()
    ensures var c := OtherFileHolds(SetScalar(NewNode("l"), "1"));
            var s := Do(c, Put("/l", "2"));
            var r := Do(s.config, Remove("/l"));
            && Inv(c) && s.ok && r.ok && Leafs(r.config.root) == map[]
            && Restarted(c.root, r.config.file) == Some(c.root) && ["l"] in Leafs(c.root)
  {
    hide Leafs, Restarted, Split, SetValue, Stored, Sound, IsInterior, KindAt, ConfigTree.Erase, Emit;
    var n := SetScalar(NewNode("l"), "1");
    var c := OtherFileHolds(n);
    SplitName();
    OtherFileInv(n);
    OtherFileLeafs(n);
    InteriorWithinOf(c);
    PutBothTrees(c.root, c.host, ["l"], "2");
    BothHold(c.root, c.host, "2");
    EraseAll(Do(c, Put("/l", "2")).config, c.root);
  }

  lemma EraseAll(d: Config, base: Tree)
    requires d.hostFile != "" && !d.locked && Leafs(d.root).Keys == {["l"]} && Leafs(d.host).Keys == {["l"]}
    requires IsMapLike(base.kind)
    ensures var r := Do(d, Remove("/l"));
            r.ok && Leafs(r.config.root) == map[] && Restarted(base, r.config.file) == Some(base)
  {
    hide Leafs, Restarted, Split, ConfigTree.Erase, Emit;
    SplitName();
    EraseEmpties(d.host);
    EraseEmpties(d.root);
    NothingWritten(ConfigTree.Erase(d.host, ["l"]).tree, base);
  }

  lemma InteriorWithinOf(c: Config)
    requires Inv(c) && !IsInterior(c.root, ["l"])
    ensures !IsInterior(c.host, ["l"])
  {
    InteriorWithin(c.root, c.host, ["l"]);
  }

  lemma EraseEmpties(t: Tree)
    requires Leafs(t).Keys == {["l"]}
    ensures ConfigTree.Erase(t, ["l"]).ok && Leafs(ConfigTree.Erase(t, ["l"]).tree) == map[]
  {
    hide Leafs, ConfigTree.Erase;
    EraseLeafs(t, ["l"]);
    assert (Leafs(t) - {["l"]}).Keys == {};
  }

  lemma NothingWritten(host: Tree, base: Tree)
    requires Leafs(host) == map[] && IsMapLike(base.kind)
    ensures Emit(host) == None && Restarted(base, Emit(host)) == Some(base)
  {
    hide Leafs;
    if HasKids(host) { KidsHaveLeafs(host); }
    EmptyOverlay(base);
  }
}
