/** Inputs for loading and reloading (src/libs/config/yaml.cpp): a main file that names a host file, and what
    becomes of a value that is in one of them or in both. */
module ConfigInputs {
  import opened Paths
  import opened ScalarText
  import opened ConfigTree
  import opened ConfigMerge
  import opened OverlayLaws
  import opened ConfigDoc
  import opened EmitReread
  import opened LeafDiff
  import opened ConfigLoad
  import opened ConfigRuns
  import opened ConfigRestart
  import opened ConfigLayers
  import opened ConfigStart
  import opened ConfigReload
  import opened LoadOrder
  import opened MapFacts

  const MAIN := "config.yaml"
  const HOST := "host.yaml"

  /** The main file with its document, and the host file if there is one. */
  function TwoFiles(doc: Doc, host: Option<Doc>): FileSystem {
    var main := WithMeta([HostSpecific(HOST)], doc);
    FileSystem(if host.Some? then map[MAIN := main, HOST := ConfigOnly(host.value)] else map[MAIN := main], map[])
  }

  /** A document with one entry. */
  function OneEntry(v: Doc): Doc {
    MapDoc([Entry("l", v)])
  }

  function OneKid(n: Tree): Tree {
    NewNode("root").(kind := MAP, kids := map["l" := n])
  }

  lemma CreatedKid(v: Doc, n: Tree)
    requires Create(v, "l") == Some(n)
    ensures Create(OneEntry(v), "root") == Some(OneKid(n))
  {
    hide Create;
    var t := NewNode("root").(kind := MAP);
    SetPlainEntry(t, "l", n);
    assert Create(OneEntry(v), "root") == SetMap(t, [Entry("l", v)]) by { CreatedMap([Entry("l", v)]); }
    assert [Entry("l", v)] == [Entry("l", v)] + [];
    SetMapStep(t, Entry("l", v), []);
    assert t.kids["l" := n] == map["l" := n];
  }

  lemma CreatedMap(entries: seq<Entry>)
    ensures Create(MapDoc(entries), "root") == SetMap(NewNode("root").(kind := MAP), entries)
  {
  }

  lemma KidIsMergeable(n: Tree)
    requires Mergeable(n) && n.name == "l"
    ensures Mergeable(OneKid(n)) && OneKid(n).name == "root"
  {
  }

  lemma NoIncludes(doc: Doc, host: Option<Doc>, e: QueueEntry)
    ensures Next(TwoFiles(doc, host), e) == []
  {
    var fs := TwoFiles(doc, host);
    assert [HostSpecific(HOST)][1..] == [];
    assert PushedAll(fs, [HostSpecific(HOST)]) == PushedAll(fs, []);
  }

  lemma FilesAcyclic(doc: Doc, host: Option<Doc>, rank: string -> nat)
    ensures Acyclic(TwoFiles(doc, host), rank)
  {
    hide Next, TwoFiles;
    forall e ensures Next(TwoFiles(doc, host), e) == [] { NoIncludes(doc, host, e); }
  }

  lemma MainIsRead(doc: Doc, host: Option<Doc>, t: Tree)
    requires Create(doc, "root") == Some(t) && MergeInto(NewRoot(), t).ok
    ensures var fs, e := TwoFiles(doc, host), QueueEntry(MAIN, false, false);
            && LoadEntry(fs, e, START) == Some(Loading(MergeInto(NewRoot(), t).tree, HOST, [MAIN], []))
            && DocOf(fs, e) == [t]
  {
    hide Create, MergeInto;
    var fs, e := TwoFiles(doc, host), QueueEntry(MAIN, false, false);
    assert |MAIN| != |HOST|;
    assert fs.files[MAIN] == WithMeta([HostSpecific(HOST)], doc);
    assert [HostSpecific(HOST)][1..] == [];
    assert ReadMeta(fs, [HostSpecific(HOST)], "") == ReadMeta(fs, [], HOST) == Some(HOST);
    assert Includes(fs, e) == [HostSpecific(HOST)] && ConfigOf(fs, MAIN) == Some(doc);
    assert [] + [MAIN] == [MAIN];
  }

  /** The load reads the main file and goes on with the host file. */
  lemma MainLoads(doc: Doc, host: Option<Doc>, t: Tree, rank: string -> nat)
    requires Create(doc, "root") == Some(t) && MergeInto(NewRoot(), t).ok
    ensures var fs := TwoFiles(doc, host);
            && Acyclic(fs, rank)
            && LoadConfig(fs, rank, MAIN) == LoadHost(fs, Loading(MergeInto(NewRoot(), t).tree, HOST, [MAIN], []))
            && BaseDocs(fs, rank, MAIN) == [t]
            && OverlayAll(NewRoot(), BaseDocs(fs, rank, MAIN)) == MergeInto(NewRoot(), t).tree
  {
    hide Create, MergeInto, LoadHost, LoadEntry, Next, TwoFiles, Acyclic, DocOf;
    var fs, e, b := TwoFiles(doc, host), QueueEntry(MAIN, false, false), rank(MAIN) + 1;
    FilesAcyclic(doc, host, rank);
    NoIncludes(doc, host, e);
    MainIsRead(doc, host, t);
    OneRound(fs, rank, e, b);
    assert [t][..0] == [] && OverlayAll(NewRoot(), []) == NewRoot();
  }

  lemma OneRound(fs: FileSystem, rank: string -> nat, e: QueueEntry, b: nat)
    requires Acyclic(fs, rank) && RanksBelow([e], rank, b) && Next(fs, e) == []
    ensures Load(fs, rank, [e], b, START) == LoadEntry(fs, e, START)
    ensures Docs(fs, BreadthFirst(fs, rank, [e], b)) == DocOf(fs, e)
  {
    hide LoadEntry, Next, Acyclic, DocOf;
    assert [e][1..] == [] && [] + Next(fs, e) == [];
    QueueShrinks(fs, rank, [e], b);
    NextAllShrinks(fs, rank, [e], b);
    assert NextAll(fs, []) == [] && NextAll(fs, [e]) == Next(fs, e) + NextAll(fs, []);
    assert BreadthFirst(fs, rank, [], b) == [] && [e] + [] == [e];
    assert Docs(fs, []) == [] && DocOf(fs, e) + [] == DocOf(fs, e);
  }

  // ---- A host value over a null ----

  lemma LeafMergeable(n: Tree)
    requires n == NewNode("l") || n == SetScalar(NewNode("l"), "5")
    ensures Mergeable(n) && Create(if n.kind == NONE then NullDoc else ScalarDoc("5"), "l") == Some(n)
  {
  }

  lemma TopMergeable(t: Tree)
    requires Mergeable(t) && t.name == "root"
    ensures Compatible(NewRoot(), t) && MergeInto(NewRoot(), t).ok && Shaped(MergeInto(NewRoot(), t).tree)
    ensures MergeInto(NewRoot(), t).tree == Merged(NewRoot(), t) && IsMapLike(MergeInto(NewRoot(), t).tree.kind)
  {
    hide Shaped, Merged, MergeInto;
    NewRootCompatible(t);
    MergeIsOverlay(NewRoot(), t);
    NewRootFits();
    MergeTop(NewRoot(), t);
  }

  lemma KidOverNewRoot(n: Tree)
    ensures Merged(NewRoot(), OneKid(n)).kids == map["l" := Copy(n)]
  {
    hide Copy;
    MergedMapKids(NewRoot(), OneKid(n));
    MapExt(Merged(NewRoot(), OneKid(n)).kids, map["l" := Copy(n)]);
  }

  /** Overlaying the scalar on the null succeeds and changes nothing. */
  lemma ScalarOverNull(base: Tree)
    requires Shaped(base) && IsMapLike(base.kind) && base.kids == map["l" := NewNode("l")]
    ensures var t := OneKid(SetScalar(NewNode("l"), "5"));
            MergeInto(base, t).ok && !AllShown(base, t)
  {
    hide Leafs, Shaped, MergeInto, MergeNode, Mergeable, NoConflict, Shown, Merged;
    var n := SetScalar(NewNode("l"), "5");
    var t := OneKid(n);
    LeafMergeable(n);
    KidIsMergeable(n);
    NullTakesAll(n);
    NoConflictKids(base, t);
    MergeNodeIsMerged(base, t);
    MergeIntoRoot(base, t);
    KidIsLeaf(n);
    NotShown(base, n);
  }

  lemma NotShown(base: Tree, n: Tree)
    requires IsMapLike(base.kind) && base.kids == map["l" := NewNode("l")] && IsScalarKind(n.kind)
    ensures !Shown(base, OneKid(n), ["l"])
  {
    assert ["l"][1..] == [] && !Shown(NewNode("l"), n, []);
  }

  lemma NullTakesAll(n: Tree)
    ensures NoConflict(NewNode("l"), n)
  {
  }

  lemma KidIsLeaf(n: Tree)
    requires !HasKids(n)
    ensures ["l"] in Leafs(OneKid(n)) && Leafs(OneKid(n))[["l"]] == LeafOf(n)
  {
    assert ["l"][1..] == [];
    assert Lookup(OneKid(n), ["l"]) == Lookup(n, []);
  }

  /** The main file has a null and the host file the number 5 in its place: the load succeeds, and does not start in
      the invariant: the effective value is the null. */
  lemma HiddenHostValue(rank: string -> nat)
    ensures var fs := TwoFiles(OneEntry(NullDoc), Some(OneEntry(ScalarDoc("5"))));
            Acyclic(fs, rank) && LoadConfig(fs, rank, MAIN).Some? && !Inv(Started(fs, LoadConfig(fs, rank, MAIN).value))
  {
    hide Create, MergeInto, Merged, LoadConfig, BaseDocs, OverlayAll, AllShown, Inv, Shaped, Mergeable, Acyclic;
    var n, m := NewNode("l"), SetScalar(NewNode("l"), "5");
    var doc, host := OneEntry(NullDoc), OneEntry(ScalarDoc("5"));
    LeafMergeable(n);
    LeafMergeable(m);
    KidIsMergeable(n);
    KidIsMergeable(m);
    CreatedKid(NullDoc, n);
    CreatedKid(ScalarDoc("5"), m);
    TopMergeable(OneKid(n));
    MainLoads(doc, Some(host), OneKid(n), rank);
    KidOverNewRoot(n);
    assert Copy(n) == NewNode("l");
    var base := MergeInto(NewRoot(), OneKid(n)).tree;
    ScalarOverNull(base);
    HostLoads(doc, host, OneKid(m), base);
    ProperPair(OneKid(n), OneKid(m));
    LoadStartsExactly(TwoFiles(doc, Some(host)), rank, MAIN);
  }

  lemma ProperPair(t: Tree, h: Tree)
    requires Mergeable(t) && t.name == "root" && Mergeable(h) && h.name == "root"
    ensures ProperDocs([t] + [h])
  {
    hide Mergeable;
  }

  /** The host file is read, created and overlaid. */
  lemma HostLoads(doc: Doc, host: Doc, h: Tree, root: Tree)
    requires Create(host, "root") == Some(h) && MergeInto(root, h).ok
    ensures LoadHost(TwoFiles(doc, Some(host)), Loading(root, HOST, [MAIN], [])) ==
            Some(Loaded(MergeInto(root, h).tree, h, HOST, [MAIN, HOST], []))
    ensures ConfigOf(TwoFiles(doc, Some(host)), HOST) == Some(host)
  {
    hide Create, MergeInto;
    assert |MAIN| != |HOST| && [MAIN] + [HOST] == [MAIN, HOST];
  }

  // ---- A value moved into the host file ----

  lemma NoHostLoads(doc: Doc, root: Tree)
    ensures LoadHost(TwoFiles(doc, None), Loading(root, HOST, [MAIN], [])) ==
            Some(Loaded(root, NewRoot(), HOST, [MAIN], []))
  {
    assert |MAIN| != |HOST|;
  }

  lemma EmptyDoc()
    ensures Create(MapDoc([]), "root") == Some(NewNode("root").(kind := MAP))
            && Mergeable(NewNode("root").(kind := MAP))
    ensures MergeInto(NewRoot(), NewNode("root").(kind := MAP)) == Outcome(NewRoot(), true)
  {
  }

  lemma NewRootProper(t: Tree)
    requires Mergeable(t) && t.name == "root"
    ensures ProperDocs([t] + [NewRoot()]) && (forall p :: p !in Leafs(NewRoot()))
  {
    hide Leafs;
    NoLeafs(NewRoot());
    assert Mergeable(NewRoot());
  }

  /** What the two loads read: the value in the main file, then the same value in the host file. */
  lemma MovedValueLoads(rank: string -> nat)
    ensures var d := OneEntry(ScalarDoc("5"));
            var fs, fs' := TwoFiles(d, None), TwoFiles(MapDoc([]), Some(d));
            var t := OneKid(SetScalar(NewNode("l"), "5"));
            && Acyclic(fs, rank) && Acyclic(fs', rank) && Mergeable(t)
            && LoadConfig(fs, rank, MAIN) == Some(Loaded(MergeInto(NewRoot(), t).tree, NewRoot(), HOST, [MAIN], []))
            && BaseDocs(fs, rank, MAIN) == [t]
            && LoadConfig(fs', rank, MAIN) == Some(Loaded(MergeInto(NewRoot(), t).tree, t, HOST, [MAIN, HOST], []))
            && BaseDocs(fs', rank, MAIN) == [NewNode("root").(kind := MAP)]
            && OnDisk(fs', HOST) == Some(d) && Create(d, "root") == Some(t)
  {
    hide Create, MergeInto, Merged, LoadConfig, BaseDocs, OverlayAll, Shaped, Mergeable, Acyclic, TwoFiles, LoadHost,
         ConfigOf;
    var n := SetScalar(NewNode("l"), "5");
    var d := OneEntry(ScalarDoc("5"));
    LeafMergeable(n);
    KidIsMergeable(n);
    CreatedKid(ScalarDoc("5"), n);
    TopMergeable(OneKid(n));
    EmptyDoc();
    MainLoads(d, None, OneKid(n), rank);
    NoHostLoads(d, MergeInto(NewRoot(), OneKid(n)).tree);
    MainLoads(MapDoc([]), Some(d), NewNode("root").(kind := MAP), rank);
    HostLoads(MapDoc([]), d, OneKid(n), NewRoot());
  }

  /** The value is moved from the main file to the host file: the reload sees no difference and keeps its trees, so
      that the host file no longer fits them, and the next set writes a host file without the value, which is then
      in no file any more. */
  lemma MovedValueIsLost(rank: string -> nat)
    ensures var d := OneEntry(ScalarDoc("5"));
            var fs, fs' := TwoFiles(d, None), TwoFiles(MapDoc([]), Some(d));
            && Acyclic(fs, rank) && LoadConfig(fs, rank, MAIN).Some?
            && Acyclic(fs', rank) && LoadConfig(fs', rank, MAIN).Some?
            && var c := Started(fs, LoadConfig(fs, rank, MAIN).value);
            var l := LoadConfig(fs', rank, MAIN);
            var r := Do(Reload(c, fs', l), Put("/x", "1"));
            && Inv(c) && Diff(c.root, l.value.root) == [] && !Inv(Reload(c, fs', l))
            && ["l"] in Leafs(l.value.host) && r.ok && Reread(r.config.file).Some?
               && ["l"] !in Leafs(Reread(r.config.file).value)
  {
    hide Create, MergeInto, LoadConfig, Inv, Mergeable, Acyclic, TwoFiles, Diff, Leafs, Reload, Do, Split, Reread,
         IsInterior;
    MovedValueLoads(rank);
    MovedValueStarts(rank);
    var d, t := OneEntry(ScalarDoc("5")), OneKid(SetScalar(NewNode("l"), "5"));
    var c := Started(TwoFiles(d, None), LoadConfig(TwoFiles(d, None), rank, MAIN).value);
    MovedValueIsNotSeen(c, rank);
    NewRootProper(t);
    OneRootKid(SetScalar(NewNode("l"), "5"));
    MissedEditIsOverwritten(c, TwoFiles(MapDoc([]), Some(d)), rank, MAIN, "/x", "1");
    KidIsLeaf(SetScalar(NewNode("l"), "5"));
  }

  lemma MovedValueStarts(rank: string -> nat)
    requires Acyclic(TwoFiles(OneEntry(ScalarDoc("5")), None), rank)
    requires LoadConfig(TwoFiles(OneEntry(ScalarDoc("5")), None), rank, MAIN).Some?
    ensures Inv(Started(TwoFiles(OneEntry(ScalarDoc("5")), None),
            LoadConfig(TwoFiles(OneEntry(ScalarDoc("5")), None), rank, MAIN).value))
  {
    hide Create, MergeInto, LoadConfig, BaseDocs, OverlayAll, Inv, Mergeable, Acyclic, TwoFiles, Leafs, ProperDocs;
    var t := OneKid(SetScalar(NewNode("l"), "5"));
    MovedValueLoads(rank);
    NewRootProper(t);
    LoadStartsExactly(TwoFiles(OneEntry(ScalarDoc("5")), None), rank, MAIN);
  }

  /** The reload keeps the trees, which the host file no longer fits. */
  lemma MovedValueIsNotSeen(c: Config, rank: string -> nat)
    requires Inv(c) && !c.locked && c.host == NewRoot() && c.hostFile == HOST
    requires c.root == MergeInto(NewRoot(), OneKid(SetScalar(NewNode("l"), "5"))).tree
    ensures var fs' := TwoFiles(MapDoc([]), Some(OneEntry(ScalarDoc("5"))));
            && Acyclic(fs', rank) && LoadConfig(fs', rank, MAIN).Some?
            && Diff(c.root, LoadConfig(fs', rank, MAIN).value.root) == []
               && !Inv(Reload(c, fs', LoadConfig(fs', rank, MAIN)))
  {
    hide Create, MergeInto, LoadConfig, BaseDocs, OverlayAll, Inv, Mergeable, Acyclic, TwoFiles, Diff, Leafs, Reload,
         ProperDocs, Fits, OnDisk;
    var d, t := OneEntry(ScalarDoc("5")), OneKid(SetScalar(NewNode("l"), "5"));
    var fs' := TwoFiles(MapDoc([]), Some(d));
    MovedValueLoads(rank);
    EmptyDoc();
    StartedParts(c);
    DiffIsMetricLike(c.root, c.root, c.root);
    ProperPair(NewNode("root").(kind := MAP), t);
    NewRootProper(t);
    KidIsLeaf(SetScalar(NewNode("l"), "5"));
    DoesNotFit(d, t);
    ReloadKeeps(c, fs', rank, MAIN);
  }

  lemma StartedParts(c: Config)
    requires Inv(c)
    ensures Named(c.root)
  {
  }

  lemma DoesNotFit(d: Doc, t: Tree)
    requires Create(d, "root") == Some(t) && ["l"] in Leafs(t) && forall p :: p !in Leafs(NewRoot())
    ensures !Fits(Some(d), NewRoot())
  {
    hide Leafs, Create;
  }

  lemma OneRootKid(n: Tree)
    requires Mergeable(OneKid(n))
    ensures Split("/x") == ["x"] && !IsInterior(MergeInto(NewRoot(), OneKid(n)).tree, ["x"])
  {
    assert Join(["x"]) == "/x" by { assert ["x"][1..] == []; }
    SplitJoin(["x"]);
    TopMergeable(OneKid(n));
    KidOverNewRoot(n);
    assert !Exists(Merged(NewRoot(), OneKid(n)), ["x"]);
  }

  // ---- Two files of a directory ----

  const DIR := "conf.d/"
  const FILE_A := "conf.d/a.yaml"
  const FILE_B := "conf.d/b.yaml"

  /** A main file that includes a directory with two files, which give the same path two values. */
  function DirectoryOfTwo(v: string, w: string): FileSystem {
    FileSystem(map[MAIN := WithMeta([IncludeDir(DIR, false)], MapDoc([])),
                   FILE_A := ConfigOnly(OneEntry(ScalarDoc(v))), FILE_B := ConfigOnly(OneEntry(ScalarDoc(w)))],
               map[DIR := [FILE_A, FILE_B]])
  }

  lemma FileNames(v: string, w: string)
    ensures MAIN != FILE_A && MAIN != FILE_B && FILE_A != FILE_B && DIR != MAIN && DIR != FILE_A && DIR != FILE_B
    ensures var fs := DirectoryOfTwo(v, w);
            && IncludesOf(fs, MAIN) == [IncludeDir(DIR, false)]
            && (forall n :: n != MAIN ==> IncludesOf(fs, n) == [])
            && ConfigOf(fs, MAIN) == Some(MapDoc([]))
            && ConfigOf(fs, FILE_A) == Some(OneEntry(ScalarDoc(v)))
            && ConfigOf(fs, FILE_B) == Some(OneEntry(ScalarDoc(w)))
            && FileReadable(fs, MAIN, false) && FileReadable(fs, FILE_A, false) && FileReadable(fs, FILE_B, false)
            && fs.dirs == map[DIR := [FILE_A, FILE_B]]
  {
    assert |MAIN| == 11 && |FILE_A| == 13 && |DIR| == 7 && FILE_A[7] != FILE_B[7];
  }

  lemma DirectoryAcyclic(v: string, w: string, rank: string -> nat)
    requires rank(FILE_A) < rank(MAIN) && rank(FILE_B) < rank(MAIN)
    ensures Acyclic(DirectoryOfTwo(v, w), rank)
  {
    hide DirectoryOfTwo, IncludesOf, ConfigOf, FileReadable, Pushed;
    var fs := DirectoryOfTwo(v, w);
    FileNames(v, w);
    forall e, e' | e' in Next(fs, e) && !e'.isDir ensures rank(e'.file) < rank(e.file) {
      EntryIncludes(fs, e);
      OnePushed(fs, IncludeDir(DIR, false));
      PushedOfDir(fs, e');
    }
  }

  lemma OnePushed(fs: FileSystem, i: Include)
    ensures PushedAll(fs, [i]) == Pushed(fs, i) && PushedAll(fs, []) == []
  {
    assert [i][1..] == [] && Pushed(fs, i) + [] == Pushed(fs, i);
  }

  lemma EntryIncludes(fs: FileSystem, e: QueueEntry)
    ensures Includes(fs, e) == if e.isDir then [] else IncludesOf(fs, e.file)
  {
  }

  lemma PushedOfDir(fs: FileSystem, e: QueueEntry)
    requires fs.dirs == map[DIR := [FILE_A, FILE_B]]
    ensures e in Pushed(fs, IncludeDir(DIR, false)) && !e.isDir ==> e.file == FILE_A || e.file == FILE_B
  {
  }

  /** Nothing, and two scalars at the same path: documents that fit together. */
  lemma ThreeHarmonious(a: Tree, b: Tree)
    requires Mergeable(a) && a.name == "l" && Mergeable(b) && b.name == "l"
    requires IsScalarKind(a.kind) && IsScalarKind(b.kind)
    ensures Harmonious([NewNode("root").(kind := MAP), OneKid(a), OneKid(b)])
    ensures Harmonious([NewNode("root").(kind := MAP), OneKid(a), OneKid(b), NewRoot()])
  {
    hide Mergeable, AgreeBelow;
    var top := NewNode("root").(kind := MAP);
    EmptyDoc();
    KidIsMergeable(a);
    KidIsMergeable(b);
    RootIsMergeable();
    KidsAgree(a, a);
    KidsAgree(a, b);
    KidsAgree(b, a);
    KidsAgree(b, b);
    forall t, d | t == top || t == NewRoot() ensures AgreeBelow(t, d) && AgreeBelow(d, t) { NoKidsAgree(t, d); }
  }

  lemma RootIsMergeable()
    ensures Mergeable(NewRoot())
  {
  }

  lemma KidsAgree(a: Tree, b: Tree)
    requires IsScalarKind(a.kind) && IsScalarKind(b.kind)
    ensures AgreeBelow(OneKid(a), OneKid(b))
  {
  }

  lemma NoKidsAgree(t: Tree, d: Tree)
    requires t.kids == map[]
    ensures AgreeBelow(t, d) && AgreeBelow(d, t)
  {
  }

  lemma ScalarMergeable(v: string)
    ensures var n := SetScalar(NewNode("l"), v);
            && Mergeable(n) && Create(ScalarDoc(v), "l") == Some(n) && n.name == "l" && IsScalarKind(n.kind)
            && n.kids == map[] && LeafOf(n) == Leaf(ScalarKind(v), v, [])
  {
  }

  lemma TreesOfTwo(v: string, w: string)
    ensures var fs, a, b := DirectoryOfTwo(v, w), SetScalar(NewNode("l"), v), SetScalar(NewNode("l"), w);
            && Trees(fs, [MAIN, FILE_A, FILE_B]) == [NewNode("root").(kind := MAP), OneKid(a), OneKid(b)]
            && TreeOf(fs, FILE_B) == Some(OneKid(b)) && TreesMade(fs, [MAIN, FILE_A, FILE_B])
  {
    hide DirectoryOfTwo, IncludesOf, ConfigOf, FileReadable, Create;
    var fs, a, b := DirectoryOfTwo(v, w), SetScalar(NewNode("l"), v), SetScalar(NewNode("l"), w);
    FileNames(v, w);
    EmptyDoc();
    ScalarMergeable(v);
    ScalarMergeable(w);
    CreatedKid(ScalarDoc(v), a);
    CreatedKid(ScalarDoc(w), b);
    assert [MAIN, FILE_A, FILE_B] == [MAIN] + ([FILE_A] + [FILE_B]);
    TreesConcat(fs, [MAIN], [FILE_A] + [FILE_B]);
    TreesConcat(fs, [FILE_A], [FILE_B]);
    OneTree(fs, MAIN);
    OneTree(fs, FILE_A);
    OneTree(fs, FILE_B);
  }

  /** The load succeeds, and the value is that of the file whose name comes last, whatever the two values are. */
  lemma SecondFileWins(v: string, w: string, rank: string -> nat)
    requires rank(FILE_A) < rank(MAIN) && rank(FILE_B) < rank(MAIN)
    ensures var fs := DirectoryOfTwo(v, w);
            && Acyclic(fs, rank) && LoadConfig(fs, rank, MAIN).Some?
            && LeafVal(LoadConfig(fs, rank, MAIN).value.root, ["l"]) == Some(Leaf(ScalarKind(w), w, []))
  {
    hide DirectoryOfTwo, IncludesOf, ConfigOf, FileReadable, Create, Acyclic, Order, LoadConfig, Harmonious,
         Mergeable, OverlaysOk, TreesMade, TreeOf, LeafVal, SetScalar, OneKid, OverlayAll, MAIN, FILE_A, FILE_B, DIR;
    var fs, a, b := DirectoryOfTwo(v, w), SetScalar(NewNode("l"), v), SetScalar(NewNode("l"), w);
    var order, ds := [MAIN, FILE_A, FILE_B], [NewNode("root").(kind := MAP), OneKid(a), OneKid(b)];
    FileNames(v, w);
    DirectoryAcyclic(v, w, rank);
    OnlyDirectory(fs, rank, MAIN, [IncludeDir(DIR, false)], DIR, false);
    assert [MAIN] + [FILE_A, FILE_B] == order;
    TreesOfTwo(v, w);
    ScalarMergeable(v);
    ScalarMergeable(w);
    ThreeHarmonious(a, b);
    HarmoniousOverlays(ds, 0);
    TwoLoad(fs, rank, ds);
    assert ds + [NewRoot()] == [ds[0], ds[1], ds[2], NewRoot()];
    LastOfThree(fs, rank, b);
  }

  lemma LastOfThree(fs: FileSystem, rank: string -> nat, b: Tree)
    requires Acyclic(fs, rank) && Order(fs, rank, MAIN) == [MAIN, FILE_A, FILE_B]
    requires TreeOf(fs, FILE_B) == Some(OneKid(b)) && b.kids == map[]
    requires LoadConfig(fs, rank, MAIN).Some? && LoadConfig(fs, rank, MAIN).value.host == NewRoot()
    requires Harmonious(Trees(fs, Order(fs, rank, MAIN)) + [NewRoot()])
    ensures LeafVal(LoadConfig(fs, rank, MAIN).value.root, ["l"]) == Some(LeafOf(b))
  {
    hide Acyclic, Order, LoadConfig, Harmonious, BaseDocs, Trees, TreeOf, Leafs, LeafVal, ReplacedBelow, MAIN, FILE_A,
         FILE_B;
    BaseDocsInOrder(fs, rank, MAIN);
    KidIsLeaf(b);
    NewRootUntouched(["l"]);
    LastNameWins(fs, rank, MAIN, 2, ["l"]);
  }

  lemma NewRootUntouched(p: Path)
    ensures !Touches(NewRoot(), p)
  {
    hide Leafs;
    NoLeafs(NewRoot());
  }

  lemma TwoLoad(fs: FileSystem, rank: string -> nat, ds: seq<Tree>)
    requires Acyclic(fs, rank) && Order(fs, rank, MAIN) == [MAIN, FILE_A, FILE_B]
    requires IncludesOf(fs, MAIN) == [IncludeDir(DIR, false)]
    requires IncludesOf(fs, FILE_A) == IncludesOf(fs, FILE_B) == []
    requires FileReadable(fs, MAIN, false) && FileReadable(fs, FILE_A, false) && FileReadable(fs, FILE_B, false)
    requires fs.dirs == map[DIR := [FILE_A, FILE_B]] && TreesMade(fs, [MAIN, FILE_A, FILE_B])
    requires OverlaysOk(OverlayAll(NewRoot(), ds[..0]), ds[0..]) && Trees(fs, [MAIN, FILE_A, FILE_B]) == ds
    ensures LoadConfig(fs, rank, MAIN).Some? && LoadConfig(fs, rank, MAIN).value.host == NewRoot()
  {
    hide IncludesOf, ConfigOf, FileReadable, Create, Acyclic, Order, Load, MergeInto, OverlaysOk, TreesMade, Trees,
         MAIN, DIR, FILE_A, FILE_B;
    var incs := AllIncludes(fs, Order(fs, rank, MAIN));
    TakeAll(ds);
    assert ds[0..] == ds && OverlayAll(NewRoot(), ds[..0]) == NewRoot();
    assert incs == [IncludeDir(DIR, false)] by {
      assert [MAIN, FILE_A, FILE_B] == [MAIN] + ([FILE_A] + [FILE_B]);
      IncludesConcat(fs, [MAIN], [FILE_A] + [FILE_B]);
      IncludesConcat(fs, [FILE_A], [FILE_B]);
      OneLevel(fs, MAIN);
      OneLevel(fs, FILE_A);
      OneLevel(fs, FILE_B);
    }
    LoopExactly(fs, rank, MAIN);
  }
}
