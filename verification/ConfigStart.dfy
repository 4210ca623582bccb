/** Completing a load with the host-specific file (read_yaml_config and load in src/libs/config/yaml.cpp), the
    runs it starts, and loading again after them. */
module ConfigStart {
  import opened Paths
  import opened ScalarText
  import opened ConfigTree
  import opened ConfigMerge
  import opened OverlayLaws
  import opened ConfigDoc
  import opened EmitReread
  import opened ConfigLoad
  import opened ConfigRuns
  import opened ConfigRestart
  import opened ConfigLayers
  import opened MapFacts

  datatype Loaded = Loaded(root: Tree, host: Tree, hostFile: string, files: seq<string>, dirs: seq<string>)

  // ---- The end of read_yaml_config ----

  function HostEntry(file: string): QueueEntry {
    QueueEntry(file, true, false)
  }

  /** The part of read_yaml_config after its loop, or None if it throws. */
  function LoadHost(fs: FileSystem, l: Loading): Option<Loaded> {
    if l.host == "" then Some(Loaded(l.root, NewRoot(), "", l.files, l.dirs))
    else
      var e := HostEntry(l.host);
      var config := ConfigOf(fs, l.host);
      if Unreadable(fs, e) || ReadMeta(fs, Includes(fs, e), l.host).None? || Next(fs, e) != [] then None
      else if config.None? then Some(Loaded(l.root, NewRoot(), l.host, l.files, l.dirs))
      else
        var t := Create(config.value, "root");
        if t.None? then None
        else
          var r := MergeInto(l.root, t.value);
          if r.ok then Some(Loaded(r.tree, t.value, l.host, l.files + [l.host], l.dirs)) else None
  }

  const START := Loading(NewRoot(), "", [], [])

  /** read_yaml_config for the file a configuration starts with. */
  ghost function LoadConfig(fs: FileSystem, rank: string -> nat, file: string): Option<Loaded>
    requires Acyclic(fs, rank)
  {
    var l := Load(fs, rank, [QueueEntry(file, false, false)], rank(file) + 1, START);
    if l.None? then None else LoadHost(fs, l.value)
  }

  /** The effective tree, the name of the host file, and what was assigned to the host tree, if anything, when
      read_yaml_config ends or throws. */
  datatype Reached = Reached(root: Tree, hostFile: string, host: Option<Option<Tree>>)

  /** The part after the loop: the host tree is assigned, perhaps null, before its includes are checked. */
  function HostReached(fs: FileSystem, l: Loading): Reached {
    if l.host == "" then Reached(l.root, "", Some(Some(NewRoot())))
    else
      var e, config := HostEntry(l.host), ConfigOf(fs, l.host);
      var t := if config.Some? then Create(config.value, "root") else None;
      if Unreadable(fs, e) || ReadMeta(fs, Includes(fs, e), l.host).None? || (config.Some? && t.None?) then
        Reached(l.root, FileHost(fs, e, l.host), None)
      else if Next(fs, e) != [] then Reached(l.root, l.host, Some(t))
      else if t.None? then Reached(l.root, l.host, Some(Some(NewRoot())))
      else Reached(MergeInto(l.root, t.value).tree, l.host, Some(t))
  }

  ghost function ConfigReached(fs: FileSystem, rank: string -> nat, file: string): Reached
    requires Acyclic(fs, rank)
  {
    var q := [QueueEntry(file, false, false)];
    var l := LoadReached(fs, rank, q, rank(file) + 1, START);
    if Load(fs, rank, q, rank(file) + 1, START).None? then Reached(l.root, l.host, None) else HostReached(fs, l)
  }

  /** A load that does not throw reaches its result. */
  lemma ConfigDone(fs: FileSystem, rank: string -> nat, file: string)
    requires Acyclic(fs, rank)
    ensures LoadConfig(fs, rank, file).Some? ==>
              var l := LoadConfig(fs, rank, file).value;
              ConfigReached(fs, rank, file) == Reached(l.root, l.hostFile, Some(Some(l.host)))
  {
    hide Load, LoadReached, Acyclic, MergeInto, Create, Next;
    LoadDone(fs, rank, [QueueEntry(file, false, false)], rank(file) + 1, START);
  }

  /** The documents that the files other than the host file contribute, in the order of their overlay. */
  ghost function BaseDocs(fs: FileSystem, rank: string -> nat, file: string): seq<Tree>
    requires Acyclic(fs, rank)
  {
    Docs(fs, BreadthFirst(fs, rank, [QueueEntry(file, false, false)], rank(file) + 1))
  }

  lemma LoadedRoot(fs: FileSystem, rank: string -> nat, file: string)
    requires Acyclic(fs, rank)
    ensures var l := Load(fs, rank, [QueueEntry(file, false, false)], rank(file) + 1, START);
            l.Some? ==> l.value.root == OverlayAll(NewRoot(), BaseDocs(fs, rank, file))
  {
    hide Load, BreadthFirst, LoadSeq, Docs, OverlayAll, Acyclic;
    var q := [QueueEntry(file, false, false)];
    LoadIsBreadthFirst(fs, rank, q, rank(file) + 1, START);
    LoadSeqOverlays(fs, BreadthFirst(fs, rank, q, rank(file) + 1), START);
  }

  lemma OverlayAllSnoc(root: Tree, ds: seq<Tree>, d: Tree)
    ensures OverlayAll(root, ds + [d]) == MergeInto(OverlayAll(root, ds), d).tree
  {
    assert (ds + [d])[..|ds|] == ds;
  }

  lemma HostTree(fs: FileSystem, l: Loading)
    ensures LoadHost(fs, l).Some? ==>
              var h := LoadHost(fs, l).value;
              && h.hostFile == l.host
              && Reread(if l.host == "" then None else ConfigOf(fs, l.host)) == Some(h.host)
              && ((h.root == l.root && h.host == NewRoot()) || MergeInto(l.root, h.host) == Outcome(h.root, true))
  {
  }

  /** The effective value of every path after loading is the one that the last document defining it gives:
      the documents in breadth-first order of the includes, and after all of them the host document. */
  lemma LastFileWins(fs: FileSystem, rank: string -> nat, file: string, p: Path)
    requires Acyclic(fs, rank) && LoadConfig(fs, rank, file).Some? && p != []
    requires Harmonious(BaseDocs(fs, rank, file) + [LoadConfig(fs, rank, file).value.host])
    ensures var l := LoadConfig(fs, rank, file).value;
            LeafVal(l.root, p) == LastValue(BaseDocs(fs, rank, file) + [l.host], p)
  {
    hide Load, BaseDocs, Harmonious, LeafVal, LastValue, LoadHost;
    var ds, l := BaseDocs(fs, rank, file), LoadConfig(fs, rank, file).value;
    var m := Load(fs, rank, [QueueEntry(file, false, false)], rank(file) + 1, START).value;
    LoadedRoot(fs, rank, file);
    HostTree(fs, m);
    LastWins(ds + [l.host], p);
    OverlayAllSnoc(NewRoot(), ds, l.host);
    if l.root == m.root && l.host == NewRoot() {
      RootOverlayKind(ds);
      EmptyOverlay(m.root);
    }
  }

  lemma {:induction false} RootOverlayKind(ds: seq<Tree>)
    ensures OverlayAll(NewRoot(), ds).kind == UNKNOWN
    decreases |ds|
  {
    if ds != [] {
      RootOverlayKind(ds[..|ds| - 1]);
      MergeIntoKind(OverlayAll(NewRoot(), ds[..|ds| - 1]), ds[|ds| - 1]);
    }
  }

  // ---- A load starts a run ----

  lemma {:induction false} OverlayAllNamed(ds: seq<Tree>)
    requires Harmonious(ds)
    ensures Named(OverlayAll(NewRoot(), ds))
    decreases |ds|
  {
    if ds != [] {
      var n := |ds| - 1;
      var d, a := ds[n], OverlayAll(NewRoot(), ds[..n]);
      assert d in ds;
      HarmoniousPrefix(ds);
      OverlayAllNamed(ds[..n]);
      OverlayAllCompatible(ds, n, d);
      MergeIsOverlay(a, d);
      MergedNamed(a, d);
    }
  }

  /** The host file as it is on the disk. */
  function OnDisk(fs: FileSystem, hostFile: string): Option<Doc> {
    if hostFile == "" then None else ConfigOf(fs, hostFile)
  }

  /** The configuration that load leaves behind. */
  function Started(fs: FileSystem, l: Loaded): Config {
    Config(l.root, l.host, l.hostFile, OnDisk(fs, l.hostFile), false, false)
  }

  lemma HarmoniousLast(ds: seq<Tree>, d: Tree)
    requires Harmonious(ds + [d])
    ensures Harmonious(ds) && Mergeable(d) && d.name == "root"
    ensures Compatible(OverlayAll(NewRoot(), ds), d)
  {
    var all := ds + [d];
    assert all[..|ds|] == ds && d in all && all[|ds|] == d;
    HarmoniousPrefix(all);
    forall j | 0 <= j < |ds| ensures AgreeBelow(ds[j], d) { assert all[j] == ds[j]; }
    OverlayAllCompatible(ds, |ds|, d);
    assert ds[..|ds|] == ds;
  }

  lemma HostLeafsWin(a: Tree, host: Tree)
    requires Compatible(a, host)
    ensures HostWithin(host, MergeInto(a, host).tree) && TypesAgree(Leafs(host), Leafs(MergeInto(a, host).tree))
  {
    hide Leafs, Merged, MergeInto, Compatible;
    MergeIsOverlay(a, host);
  }

  /** A load of documents that fit together gives trees that are named and of which the host tree is part. */
  lemma LoadIsSound(fs: FileSystem, rank: string -> nat, file: string)
    requires Acyclic(fs, rank) && LoadConfig(fs, rank, file).Some?
    requires Harmonious(BaseDocs(fs, rank, file) + [LoadConfig(fs, rank, file).value.host])
    ensures var l, base := LoadConfig(fs, rank, file).value, OverlayAll(NewRoot(), BaseDocs(fs, rank, file));
            && Sound(l.root, l.host)
            && base.kind == UNKNOWN && Compatible(base, l.host) && MergeInto(base, l.host) == Outcome(l.root, true)
            && Reread(OnDisk(fs, l.hostFile)) == Some(l.host)
  {
    hide Load, BaseDocs, Harmonious, LoadHost, Named, Shaped, HostWithin, Leafs, MergeInto, Compatible;
    var ds, l := BaseDocs(fs, rank, file), LoadConfig(fs, rank, file).value;
    var m := Load(fs, rank, [QueueEntry(file, false, false)], rank(file) + 1, START).value;
    LoadedRoot(fs, rank, file);
    HostTree(fs, m);
    HarmoniousLast(ds, l.host);
    OverlayAllNamed(ds + [l.host]);
    OverlayAllSnoc(NewRoot(), ds, l.host);
    RootOverlayKind(ds);
    EmptyOverlay(m.root);
    HostLeafsWin(m.root, l.host);
    MergeIsOverlay(m.root, l.host);
    MergeableNamed(l.host);
  }

  lemma MergeableNamed(t: Tree)
    requires Mergeable(t)
    ensures Named(t) && Rootless(t) && ShapedBelow(t) && Shaped(t)
  {
  }

  /** What a load of proper documents gives, whether they agree in kind or not. */
  lemma LoadedTrees(fs: FileSystem, rank: string -> nat, file: string)
    requires Acyclic(fs, rank) && LoadConfig(fs, rank, file).Some?
    requires ProperDocs(BaseDocs(fs, rank, file) + [LoadConfig(fs, rank, file).value.host])
    ensures var l, base := LoadConfig(fs, rank, file).value, OverlayAll(NewRoot(), BaseDocs(fs, rank, file));
            && Shaped(base) && Mergeable(l.host) && NoConflict(base, l.host)
            && l.root == Merged(base, l.host) && Named(l.root)
            && Reread(OnDisk(fs, l.hostFile)) == Some(l.host)
  {
    hide Load, BreadthFirst, LoadSeq, Docs, OverlayAll, OverlaysOk, LoadHost, Mergeable, Named, Shaped, MergeInto,
         Merged;
    var ds, l := BaseDocs(fs, rank, file), LoadConfig(fs, rank, file).value;
    var q := [QueueEntry(file, false, false)];
    var m := Load(fs, rank, q, rank(file) + 1, START).value;
    LoadedRoot(fs, rank, file);
    LoadIsBreadthFirst(fs, rank, q, rank(file) + 1, START);
    LoadSeqOk(fs, BreadthFirst(fs, rank, q, rank(file) + 1), START);
    ProperParts(ds, l.host);
    NewRootFits();
    OverlayAllFits(NewRoot(), ds);
    HostTree(fs, m);
    EmptyOverlay(m.root);
    MergeTop(m.root, l.host);
  }

  lemma ProperParts(ds: seq<Tree>, d: Tree)
    requires ProperDocs(ds + [d])
    ensures ProperDocs(ds) && Mergeable(d) && d.name == "root"
  {
    hide Mergeable;
    assert d in ds + [d];
    forall x | x in ds ensures x in ds + [d] { }
  }

  lemma NewRootFits()
    ensures Named(NewRoot()) && Shaped(NewRoot()) && IsMapLike(NewRoot().kind)
  {
  }

  /** A load with a host file starts in the invariant if and only if the other files let every host leaf through:
      a host value where they have children or a null of another type is in the host tree alone. */
  lemma LoadStartsExactly(fs: FileSystem, rank: string -> nat, file: string)
    requires Acyclic(fs, rank) && LoadConfig(fs, rank, file).Some? && LoadConfig(fs, rank, file).value.hostFile != ""
    requires ProperDocs(BaseDocs(fs, rank, file) + [LoadConfig(fs, rank, file).value.host])
    ensures Inv(Started(fs, LoadConfig(fs, rank, file).value)) <==>
            AllShown(OverlayAll(NewRoot(), BaseDocs(fs, rank, file)), LoadConfig(fs, rank, file).value.host)
  {
    hide BaseDocs, LoadConfig, OverlayAll, Shaped, Merged, NoConflict, HostWithin, AllShown, Leafs, OnDisk, ProperDocs;
    LoadedTrees(fs, rank, file);
    var l, base := LoadConfig(fs, rank, file).value, OverlayAll(NewRoot(), BaseDocs(fs, rank, file));
    MergeableNamed(l.host);
    WithinIfShown(base, l.host);
  }

  /** A load of documents that fit together, with a host file, starts every run in the invariant. */
  lemma LoadStartsRuns(fs: FileSystem, rank: string -> nat, file: string)
    requires Acyclic(fs, rank) && LoadConfig(fs, rank, file).Some? && LoadConfig(fs, rank, file).value.hostFile != ""
    requires Harmonious(BaseDocs(fs, rank, file) + [LoadConfig(fs, rank, file).value.host])
    ensures Inv(Started(fs, LoadConfig(fs, rank, file).value)) && Typed(Started(fs, LoadConfig(fs, rank, file).value))
  {
    hide BaseDocs, Harmonious, LoadConfig, Sound, Leafs, MergeInto, Compatible;
    LoadIsSound(fs, rank, file);
    HostLeafsWin(OverlayAll(NewRoot(), BaseDocs(fs, rank, file)), LoadConfig(fs, rank, file).value.host);
  }

  /** Right after loading, the effective leaves are those of the other files, overridden by the host leaves,
      unless the host file replaces a sequence of maps. */
  lemma LoadIsLayered(fs: FileSystem, rank: string -> nat, file: string)
    requires Acyclic(fs, rank) && LoadConfig(fs, rank, file).Some?
    requires Harmonious(BaseDocs(fs, rank, file) + [LoadConfig(fs, rank, file).value.host])
    requires forall p :: !ReplacedBelow(LoadConfig(fs, rank, file).value.host, p)
    ensures var l := LoadConfig(fs, rank, file).value;
            Leafs(l.root) == Leafs(OverlayAll(NewRoot(), BaseDocs(fs, rank, file))) + Leafs(l.host)
  {
    hide BaseDocs, Harmonious, LoadConfig, Sound, Leafs, Compatible, MergeInto, ReplacedBelow;
    var l, base := LoadConfig(fs, rank, file).value, OverlayAll(NewRoot(), BaseDocs(fs, rank, file));
    LoadIsSound(fs, rank, file);
    MergeIsOverlay(base, l.host);
    OverNothing(Leafs(base), p => ReplacedBelow(l.host, p), Leafs(l.host));
  }

  lemma OverNothing(a: map<Path, Leaf>, gone: Path -> bool, b: map<Path, Leaf>)
    requires forall p :: !gone(p)
    ensures Over(a, gone, b) == a + b
  {
    var l := map p | p in a && !gone(p) :: a[p];
    assert l.Keys == a.Keys;
    MapExt(l, a);
  }

  // ---- A load starts a run that a restart restores ----

  /** Trees that agree do so at every common path that is not in a sequence of maps. */
  lemma {:induction false} AgreeAt(a: Tree, h: Tree, p: Path)
    requires Agree(a, h) && Shaped(a) && Shaped(h) && !Replaced(h, p) && Exists(a, p) && Exists(h, p)
    ensures Agree(Lookup(a, p).value, Lookup(h, p).value) && Shaped(Lookup(h, p).value)
            && Lookup(h, p).value.kind != SEQUENCE_MAP
    decreases p
  {
    if p != [] {
      AgreeAt(a.kids[p[0]], h.kids[p[0]], p[1..]);
    }
  }

  lemma {:induction false} AgreeOpen(a: Tree, h: Tree, p: Path)
    requires Agree(a, h) && Shaped(a) && Shaped(h) && !Replaced(h, p)
    requires LeafVal(h, p).Some? && LeafVal(h, p).value.kind != SEQUENCE
    ensures Open(a, p)
    decreases p
  {
    if p != [] && p[0] in a.kids {
      AgreeOpen(a.kids[p[0]], h.kids[p[0]], p[1..]);
    }
  }

  /** At one path: the leaf after a restart is that of the overlay. */
  lemma AgreeRestart(a: Tree, h: Tree, p: Path)
    requires Compatible(a, h) && p != [] && !ReplacedBelow(h, p) && (p in Leafs(h) ==> PlainLeaf(Leafs(h)[p]))
    ensures RestartLeaf(a, Leafs(h), p) == At(Leafs(Merged(a, h)), p)
    ensures p in Leafs(h) ==> Open(a, p)
  {
    hide Leafs, Merged, HasBelow, Agree, Shaped, ScalarKind, Open;
    MergeableNamed(h);
    MergedLeafValBelow(a, h, p);
    LeafsVal(h, p);
    LeafsVal(a, p);
    LeafsVal(Merged(a, h), p);
    InteriorBelow(h, p);
    OpenStep(a, p);
    if p[0] in a.kids && p[0] in h.kids {
      if Exists(a, p) && Exists(h, p) {
        AgreeAt(a.kids[p[0]], h.kids[p[0]], p[1..]);
        AgreeKinds(Lookup(a, p).value, Lookup(h, p).value);
      }
      if p in Leafs(h) { AgreeOpen(a.kids[p[0]], h.kids[p[0]], p[1..]); }
    }
  }

  lemma AgreeKinds(a: Tree, h: Tree)
    requires Agree(a, h) && Shaped(h) && h.kind != SEQUENCE_MAP
    ensures HasKids(h) ==> HasKids(a)
    ensures IsScalarKind(h.kind) ==> IsScalarKind(a.kind)
  {
  }

  lemma {:induction false} OverlayAllRootless(ds: seq<Tree>)
    ensures Rootless(OverlayAll(NewRoot(), ds))
    decreases |ds|
  {
    if ds != [] {
      OverlayAllRootless(ds[..|ds| - 1]);
      MergeIntoRootless(OverlayAll(NewRoot(), ds[..|ds| - 1]), ds[|ds| - 1]);
    }
  }

  /** After a load of documents that fit together, with scalars only and no sequence of maps in the host file,
      a restart restores the configuration: with the file as it is and with the file as it would be written. */
  lemma LoadSurvives(fs: FileSystem, rank: string -> nat, file: string)
    requires Acyclic(fs, rank) && LoadConfig(fs, rank, file).Some?
    requires Harmonious(BaseDocs(fs, rank, file) + [LoadConfig(fs, rank, file).value.host])
    requires PlainLeaves(LoadConfig(fs, rank, file).value.host) && forall p ::
             !ReplacedBelow(LoadConfig(fs, rank, file).value.host, p)
    ensures var l, base := LoadConfig(fs, rank, file).value, OverlayAll(NewRoot(), BaseDocs(fs, rank, file));
            IsBase(base) && Survives(base, l.root, l.host) && Restorable(base, Started(fs, l))
  {
    hide BaseDocs, Harmonious, LoadConfig, Sound, Leafs, MergeInto, ReplacedBelow, RestartLeaf, Open, PlainLeaf,
         Rootless, Survives, Merged, OverlayAll;
    var l, base := LoadConfig(fs, rank, file).value, OverlayAll(NewRoot(), BaseDocs(fs, rank, file));
    LoadIsSound(fs, rank, file);
    OverlayAllRootless(BaseDocs(fs, rank, file));
    MergeIsOverlay(base, l.host);
    MergeableNamed(l.host);
    RootlessLeafs(l.host);
    NotTheRoot(l.host);
    forall p | p != []
      ensures RestartLeaf(base, Leafs(l.host), p) == At(Leafs(l.root), p)
      ensures p in Leafs(l.host) ==> Open(base, p)
    {
      AgreeRestart(base, l.host, p);
    }
    RestartIsRestored(base, l.root, l.host);
  }

  /** The end of a load is the restart with the document in the host file. */
  lemma LoadHostRestarts(fs: FileSystem, l: Loading)
    requires l.host != "" && IsMapLike(l.root.kind)
    requires l.host in fs.files ==> fs.files[l.host].ConfigOnly? || fs.files[l.host].NoDocument?
    ensures LoadHost(fs, l).Some? <==> Restarted(l.root, ConfigOf(fs, l.host)).Some?
    ensures LoadHost(fs, l).Some? ==> LoadHost(fs, l).value.root == Restarted(l.root, ConfigOf(fs, l.host)).value
  {
    hide MergeInto, Create;
    EmptyOverlay(l.root);
  }

  // ---- Loading, running and loading again ----

  /** The content of a host file that was written. */
  function Written(file: Option<Doc>): Content {
    if file.Some? then ConfigOnly(file.value) else NoDocument
  }

  /** The files once the host file was written. */
  function Rewritten(fs: FileSystem, f: string, file: Option<Doc>): FileSystem {
    fs.(files := fs.files[f := Written(file)])
  }

  /** Reading the entry does not touch the file: it is another file and includes it as no directory. */
  predicate Untouched(fs: FileSystem, e: QueueEntry, f: string) {
    !e.isDir ==> e.file != f && forall i :: i in Includes(fs, e) ==> !(i.IncludeDir? && i.dir == f)
  }

  lemma {:induction false} PushedSame(fs: FileSystem, fs': FileSystem, incs: seq<Include>)
    requires fs'.dirs == fs.dirs
    ensures PushedAll(fs', incs) == PushedAll(fs, incs)
  {
    if incs != [] {
      PushedSame(fs, fs', incs[1..]);
    }
  }

  lemma {:induction false} MetaSame(fs: FileSystem, f: string, file: Option<Doc>, incs: seq<Include>, host: string)
    requires forall i :: i in incs ==> !(i.IncludeDir? && i.dir == f)
    ensures ReadMeta(Rewritten(fs, f, file), incs, host) == ReadMeta(fs, incs, host)
  {
    if incs != [] {
      assert incs[0] in incs;
      MetaSame(fs, f, file, incs[1..], HostAfter(incs[0], host));
    }
  }

  lemma NextSame(fs: FileSystem, f: string, file: Option<Doc>, e: QueueEntry)
    ensures Next(Rewritten(fs, f, file), e) == if !e.isDir && e.file == f then [] else Next(fs, e)
  {
    PushedSame(fs, Rewritten(fs, f, file), Includes(fs, e));
  }

  lemma EntrySame(fs: FileSystem, f: string, file: Option<Doc>, e: QueueEntry, l: Loading)
    requires Untouched(fs, e, f)
    ensures LoadEntry(Rewritten(fs, f, file), e, l) == LoadEntry(fs, e, l)
            && Next(Rewritten(fs, f, file), e) == Next(fs, e)
  {
    hide MergeInto, Create, Next, ReadMeta;
    NextSame(fs, f, file, e);
    if !e.isDir { MetaSame(fs, f, file, Includes(fs, e), l.host); }
  }

  lemma AcyclicSame(fs: FileSystem, rank: string -> nat, f: string, file: Option<Doc>)
    requires Acyclic(fs, rank)
    ensures Acyclic(Rewritten(fs, f, file), rank)
  {
    hide Next, Rewritten;
    forall e, e' | e' in Next(Rewritten(fs, f, file), e) && !e'.isDir ensures rank(e'.file) < rank(e.file) {
      NextSame(fs, f, file, e);
    }
  }

  lemma {:induction false} SequenceSame(fs: FileSystem, f: string, file: Option<Doc>, q: seq<QueueEntry>, l: Loading)
    requires forall e :: e in q ==> Untouched(fs, e, f)
    ensures LoadSeq(Rewritten(fs, f, file), q, l) == LoadSeq(fs, q, l)
            && NextAll(Rewritten(fs, f, file), q) == NextAll(fs, q)
    decreases |q|
  {
    hide LoadEntry, Next, Untouched, Rewritten;
    if q != [] {
      assert q[0] in q;
      EntrySame(fs, f, file, q[0], l);
      var l' := LoadEntry(fs, q[0], l);
      SequenceSame(fs, f, file, q[1..], if l'.Some? then l'.value else l);
    }
  }

  lemma {:induction false} BreadthFirstSame(fs: FileSystem, rank: string -> nat, f: string, file: Option<Doc>,
      q: seq<QueueEntry>, b: nat)
    requires Acyclic(fs, rank) && RanksBelow(q, rank, b)
    requires forall e :: e in BreadthFirst(fs, rank, q, b) ==> Untouched(fs, e, f)
    ensures Acyclic(Rewritten(fs, f, file), rank)
    ensures BreadthFirst(Rewritten(fs, f, file), rank, q, b) == BreadthFirst(fs, rank, q, b)
    decreases SizeAll(fs, rank, q, b)
  {
    hide Acyclic, Untouched, Rewritten, NextAll;
    AcyclicSame(fs, rank, f, file);
    if q != [] {
      NextAllShrinks(fs, rank, q, b);
      forall e | e in q ensures Untouched(fs, e, f) { assert e in BreadthFirst(fs, rank, q, b); }
      SequenceSame(fs, f, file, q, START);
      BreadthFirstSame(fs, rank, f, file, NextAll(fs, q), b);
    }
  }

  lemma LoadSame(fs: FileSystem, rank: string -> nat, f: string, file: Option<Doc>, q: seq<QueueEntry>, b: nat,
      l: Loading)
    requires Acyclic(fs, rank) && RanksBelow(q, rank, b)
    requires forall e :: e in BreadthFirst(fs, rank, q, b) ==> Untouched(fs, e, f)
    ensures Acyclic(Rewritten(fs, f, file), rank)
    ensures Load(Rewritten(fs, f, file), rank, q, b, l) == Load(fs, rank, q, b, l)
  {
    hide Load, BreadthFirst, LoadSeq, Untouched, Acyclic, Rewritten;
    BreadthFirstSame(fs, rank, f, file, q, b);
    LoadIsBreadthFirst(fs, rank, q, b, l);
    LoadIsBreadthFirst(Rewritten(fs, f, file), rank, q, b, l);
    SequenceSame(fs, f, file, BreadthFirst(fs, rank, q, b), l);
  }

  /** None of the other files that a load reads is the host file. */
  ghost predicate HostApart(fs: FileSystem, rank: string -> nat, file: string, f: string)
    requires Acyclic(fs, rank)
  {
    forall e :: e in BreadthFirst(fs, rank, [QueueEntry(file, false, false)], rank(file) + 1) ==> Untouched(fs, e, f)
  }

  /** Loading again with another host file is the restart with its document. */
  lemma LoadIsRestarted(fs: FileSystem, rank: string -> nat, file: string, doc: Option<Doc>)
    requires Acyclic(fs, rank) && LoadConfig(fs, rank, file).Some? && LoadConfig(fs, rank, file).value.hostFile != ""
    requires HostApart(fs, rank, file, LoadConfig(fs, rank, file).value.hostFile)
    ensures var base, fs' := OverlayAll(NewRoot(), BaseDocs(fs, rank, file)),
            Rewritten(fs, LoadConfig(fs, rank, file).value.hostFile, doc);
            && Acyclic(fs', rank)
            && (LoadConfig(fs', rank, file).Some? <==> Restarted(base, doc).Some?)
            && (LoadConfig(fs', rank, file).Some? ==>
               LoadConfig(fs', rank, file).value.root == Restarted(base, doc).value)
  {
    hide Load, BreadthFirst, BaseDocs, Restarted, LoadHost, Untouched, Acyclic, OverlayAll;
    var f := LoadConfig(fs, rank, file).value.hostFile;
    var q := [QueueEntry(file, false, false)];
    var m := Load(fs, rank, q, rank(file) + 1, START).value;
    LoadedRoot(fs, rank, file);
    RootOverlayKind(BaseDocs(fs, rank, file));
    HostTree(fs, m);
    LoadSame(fs, rank, f, doc, q, rank(file) + 1, START);
    LoadHostRestarts(Rewritten(fs, f, doc), m);
  }

  /** Loading, any run of lasting steps that ends unlocked, and loading again: the load succeeds, and every value
      is there again with its type. */
  lemma LoadRunRestart(fs: FileSystem, rank: string -> nat, file: string, steps: seq<Step>)
    requires Acyclic(fs, rank) && LoadConfig(fs, rank, file).Some? && LoadConfig(fs, rank, file).value.hostFile != ""
    requires Harmonious(BaseDocs(fs, rank, file) + [LoadConfig(fs, rank, file).value.host])
    requires PlainLeaves(LoadConfig(fs, rank, file).value.host) && forall p ::
             !ReplacedBelow(LoadConfig(fs, rank, file).value.host, p)
    requires HostApart(fs, rank, file, LoadConfig(fs, rank, file).value.hostFile)
    requires var c := Started(fs, LoadConfig(fs, rank, file).value);
             IsRun(c, steps) && AllLasting(OverlayAll(NewRoot(), BaseDocs(fs, rank, file)), c, steps)
    ensures var l := LoadConfig(fs, rank, file).value;
            var d := After(Started(fs, l), steps);
            var fs' := Rewritten(fs, l.hostFile, d.file);
            !d.locked ==>
              Acyclic(fs', rank) && LoadConfig(fs', rank, file).Some?
                  && Leafs(LoadConfig(fs', rank, file).value.root) == Leafs(d.root)
  {
    hide BaseDocs, Harmonious, LoadConfig, Leafs, ReplacedBelow, PlainLeaves, IsBase, Survives, Restorable, Restarted,
         Inv, AllLasting, IsRun, After,
         Rewritten, HostApart, OverlayAll, Acyclic;
    var l := LoadConfig(fs, rank, file).value;
    LoadStartsRuns(fs, rank, file);
    LoadSurvives(fs, rank, file);
    RestartRestores(OverlayAll(NewRoot(), BaseDocs(fs, rank, file)), Started(fs, l), steps);
    LoadIsRestarted(fs, rank, file, After(Started(fs, l), steps).file);
  }
}
