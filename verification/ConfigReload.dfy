/** Reloading after a file has changed (fam_event in src/libs/config/yaml.cpp), alone and between the calls of
    a run. */
module ConfigReload {
  import opened Paths
  import opened ScalarText
  import opened ConfigTree
  import opened ConfigDoc
  import opened EmitReread
  import opened LeafDiff
  import opened ConfigLoad
  import opened ConfigRuns
  import opened ConfigRestart
  import opened ConfigLayers
  import opened ConfigStart
  import opened MapFacts

  // ---- fam_event ----

  /** What fam_event makes of the configuration it holds and the one it has read, if reading did not throw. */
  function Reload(c: Config, fs: FileSystem, l: Option<Loaded>): Config {
    if l.Some? && Diff(c.root, l.value.root) != [] then Started(fs, l.value).(pending := c.pending, locked := c.locked)
    else c.(file := OnDisk(fs, c.hostFile))
  }

  /** fam_event takes the trees it has read. */
  ghost predicate Adopts(c: Config, l: Option<Loaded>) {
    l.Some? && Diff(c.root, l.value.root) != []
  }

  /** Documents, if they are read at all, that were made from proper keys. */
  ghost predicate ReadsProper(fs: FileSystem, rank: string -> nat, file: string)
    requires Acyclic(fs, rank)
  {
    var l := LoadConfig(fs, rank, file);
    l.Some? ==> ProperDocs(BaseDocs(fs, rank, file) + [l.value.host])
  }

  /** A reload waits for the mutex. If new trees are taken, the invariant holds afterwards if and only if they come
      with a host file whose leaves the other files let through. If the old trees are kept, because nothing differs
      or because reading failed, it holds if and only if the host file still has the leaves of the host tree. */
  lemma ReloadKeeps(c: Config, fs: FileSystem, rank: string -> nat, file: string)
    requires Inv(c) && !c.locked && Acyclic(fs, rank) && ReadsProper(fs, rank, file)
    ensures var l := LoadConfig(fs, rank, file);
            Inv(Reload(c, fs, l)) <==>
            if Adopts(c, l) then l.value.hostFile != ""
                && AllShown(OverlayAll(NewRoot(), BaseDocs(fs, rank, file)), l.value.host)
            else Fits(OnDisk(fs, c.hostFile), c.host)
  {
    hide Diff, Leafs, Emit, Reread, OnDisk, LoadConfig, BaseDocs, OverlayAll, ProperDocs, Sound, AllShown;
    var l := LoadConfig(fs, rank, file);
    if Adopts(c, l) && l.value.hostFile != "" {
      LoadStartsExactly(fs, rank, file);
    }
  }

  /** After a change of files that fit together, with a host file, a reload keeps the invariant if and only if it
      reports a difference or the host file still has the leaves of the host tree. */
  lemma CompatibleReloadKeeps(c: Config, fs: FileSystem, rank: string -> nat, file: string)
    requires Inv(c) && !c.locked && Acyclic(fs, rank)
    requires LoadConfig(fs, rank, file).Some? && LoadConfig(fs, rank, file).value.hostFile != ""
    requires Harmonious(BaseDocs(fs, rank, file) + [LoadConfig(fs, rank, file).value.host])
    ensures var l := LoadConfig(fs, rank, file);
            Inv(Reload(c, fs, l)) <==> Diff(c.root, l.value.root) != [] || Fits(OnDisk(fs, c.hostFile), c.host)
  {
    hide Diff, Emit, Reread, OnDisk, LoadConfig, BaseDocs, OverlayAll, Sound, AllShown, Fits, Inv, Reload;
    LoadStartsRuns(fs, rank, file);
    LoadStartsExactly(fs, rank, file);
    ReloadKeeps(c, fs, rank, file);
  }

  /** A list leaf of both trees whose items differ. */
  ghost predicate ListsDiffer(a: Tree, b: Tree) {
    exists p :: IsLeaf(a, p) && IsLeaf(b, p) && Lookup(a, p).value.kind == SEQUENCE
        && Lookup(a, p).value.items != Lookup(b, p).value.items
  }

  lemma Listed(a: Tree, b: Tree, p: Path)
    requires Named(a) && Named(b) && DifferAt(a, b, p)
    ensures Join(p) in Diff(a, b)
  {
    hide Named, Diff, DifferAt, Join;
    DiffExact(a, b);
  }

  lemma NoDiff(a: Tree, b: Tree, p: Path)
    requires Named(a) && Named(b) && Diff(a, b) == []
    ensures !DifferAt(a, b, p)
  {
    hide Named, Diff, DifferAt, Join;
    if DifferAt(a, b, p) {
      Listed(a, b, p);
    }
  }

  lemma SameLeafKeys(a: Tree, b: Tree)
    requires forall p :: !DifferAt(a, b, p)
    ensures Leafs(a).Keys == Leafs(b).Keys
  {
    forall p ensures p in Leafs(a) <==> p in Leafs(b) { assert !DifferAt(a, b, p); }
  }

  /** Two trees without differences have the same leaves exactly when their lists have the same items. */
  lemma SameButLists(a: Tree, b: Tree)
    requires Named(a) && Named(b) && Diff(a, b) == []
    ensures Leafs(a) == Leafs(b) <==> !ListsDiffer(a, b)
  {
    hide Named, Diff, Join, Lookup;
    forall p ensures !DifferAt(a, b, p) { NoDiff(a, b, p); }
    SameLeafKeys(a, b);
    if ListsDiffer(a, b) {
      var p :| IsLeaf(a, p) && IsLeaf(b, p) && Lookup(a, p).value.kind == SEQUENCE
          && Lookup(a, p).value.items != Lookup(b, p).value.items;
      assert !DifferAt(a, b, p);
      assert p in Leafs(a) && Leafs(a)[p] != Leafs(b)[p];
    } else {
      forall p | p in Leafs(a)
          ensures Leafs(a)[p] == Leafs(b)[p] { assert !DifferAt(a, b, p) && IsLeaf(a, p) && IsLeaf(b, p); }
      MapExt(Leafs(a), Leafs(b));
    }
  }

  /** After a successful reload nothing is left to report: the difference to what was read is empty. Every
      leaf is the newly read one, with one exception: when only items of lists have changed, the old trees
      are kept. */
  lemma ReloadAdopts(c: Config, fs: FileSystem, l: Loaded)
    requires Named(c.root) && Named(l.root)
    ensures Diff(Reload(c, fs, Some(l)).root, l.root) == []
    ensures Leafs(Reload(c, fs, Some(l)).root) == Leafs(l.root) <==>
            Diff(c.root, l.root) != [] || !ListsDiffer(c.root, l.root)
    ensures var r := Reload(c, fs, Some(l)); r.pending == c.pending && r.locked == c.locked
    ensures Diff(c.root, l.root) != [] ==>
            var r := Reload(c, fs, Some(l)); r.root == l.root && r.host == l.host && r.hostFile == l.hostFile
  {
    hide Diff, Leafs, ListsDiffer;
    DiffIsMetricLike(l.root, l.root, l.root);
    if Diff(c.root, l.root) == [] {
      SameButLists(c.root, l.root);
    }
  }

  /** A reload that misses a change: one item has been added to a list. */
  lemma ListChangeIsMissed()
    ensures var t, t' := NewRoot().(kids := map["l" := SetList(NewNode("l"), ["1"])]),
            NewRoot().(kids := map["l" := SetList(NewNode("l"), ["1", "2"])]);
            Named(t) && Named(t') && Diff(t, t') == [] && Leafs(t) != Leafs(t')
  {
    hide Leafs, Diff, Lookup, IsLeaf;
    var c, c' := SetList(NewNode("l"), ["1"]), SetList(NewNode("l"), ["1", "2"]);
    var t, t' := NewRoot().(kids := map["l" := c]), NewRoot().(kids := map["l" := c']);
    OneLeaf("l", c);
    OneLeaf("l", c');
    DiffExact(t, t');
    HasElement(Diff(t, t'));
    assert forall p :: !DifferAt(t, t', p);
    assert ["l"] in Leafs(t) && Leafs(t)[["l"]].items == ["1"] && Leafs(t')[["l"]].items == ["1", "2"];
  }

  // ---- Runs with reloads ----

  /** A call, or a change of the files that the configuration is told about. */
  datatype Event = Call(step: Step) | Changed(fs: FileSystem, rank: string -> nat)

  ghost predicate Loadable(e: Event) {
    e.Changed? ==> Acyclic(e.fs, e.rank)
  }

  ghost function React(c: Config, file: string, e: Event): Config
    requires Loadable(e)
  {
    match e
    case Call(s) => Do(c, s).config
    case Changed(fs, rank) => Reload(c, fs, LoadConfig(fs, rank, file))
  }

  ghost function AfterEvents(c: Config, file: string, es: seq<Event>): Config
    requires forall e :: e in es ==> Loadable(e)
    decreases |es|
  {
    if es == [] then c else AfterEvents(React(c, file, es[0]), file, es[1..])
  }

  /** A reload waits for the mutex. What it reads, if it can be read, is made of proper documents with a host file
      whose leaves the other files let through. */
  ghost predicate MayOccur(c: Config, file: string, e: Event)
    requires Loadable(e)
  {
    match e
    case Call(s) => Enabled(c, s)
    case Changed(fs, rank) =>
      var l := LoadConfig(fs, rank, file);
      && !c.locked && ReadsProper(fs, rank, file)
      && (l.Some? ==> l.value.hostFile != "" && AllShown(OverlayAll(NewRoot(), BaseDocs(fs, rank, file)), l.value.host))
  }

  ghost predicate IsEventRun(c: Config, file: string, es: seq<Event>)
    requires forall e :: e in es ==> Loadable(e)
    decreases |es|
  {
    es != [] ==> MayOccur(c, file, es[0]) && IsEventRun(React(c, file, es[0]), file, es[1..])
  }

  /** The event changes the host file behind the back of the configuration, which keeps its old host tree. */
  ghost predicate Disturbs(c: Config, file: string, e: Event)
    requires Loadable(e)
  {
    e.Changed? && !Adopts(c, LoadConfig(e.fs, e.rank, file)) && !Fits(OnDisk(e.fs, c.hostFile), c.host)
  }

  ghost predicate Undisturbed(c: Config, file: string, es: seq<Event>)
    requires forall e :: e in es ==> Loadable(e)
    decreases |es|
  {
    es != [] ==> !Disturbs(c, file, es[0]) && Undisturbed(React(c, file, es[0]), file, es[1..])
  }

  /** The invariant apart from what the file holds. */
  ghost predicate TreesInv(c: Config) {
    c.hostFile != "" && Sound(c.root, c.host) && (c.pending ==> c.locked)
  }

  /** The same but for the files, which are both written or both left alone. */
  predicate SameButFile(d: Result, d': Result, was: Option<Doc>, was': Option<Doc>) {
    && d.ok == d'.ok && d'.config == d.config.(file := d'.config.file)
    && (d.config.file == d'.config.file || (d.config.file == was && d'.config.file == was'))
  }

  lemma WriteSameButFile(c: Config, file: Option<Doc>)
    ensures SameButFile(WriteHost(c), WriteHost(c.(file := file)), c.file, file)
  {
    hide Emit;
  }

  /** A call does the same to the trees whatever the file holds. */
  lemma FileIsNotRead(c: Config, file: Option<Doc>, s: Step)
    ensures SameButFile(Do(c, s), Do(c.(file := file), s), c.file, file)
  {
    hide SetValue, SetListAt, ConfigTree.Erase, Emit, Split, WriteHost;
    match s
    case Put(path, text) =>
      var r, h := SetValue(c.root, Split(path), text).tree, SetValue(c.host, Split(path), text).tree;
      WriteSameButFile(c.(root := r, host := h), file);
    case PutList(path, values) =>
      var r, h := SetListAt(c.root, Split(path), values).tree, SetListAt(c.host, Split(path), values).tree;
      WriteSameButFile(c.(root := r, host := h), file);
    case Remove(path) =>
      var r, h := ConfigTree.Erase(c.root, Split(path)).tree, ConfigTree.Erase(c.host, Split(path)).tree;
      WriteSameButFile(c.(root := r, host := h), file);
    case Lock =>
    case Unlock =>
  }

  lemma CallKeepsTrees(c: Config, s: Step)
    requires TreesInv(c) && Enabled(c, s)
    ensures TreesInv(Do(c, s).config)
  {
    hide Sound, Emit, Reread, Do;
    var c' := c.(file := Emit(c.host));
    StoredNow(c');
    StepKeeps(c', s);
    FileIsNotRead(c, c'.file, s);
  }

  lemma EventKeepsTrees(c: Config, file: string, e: Event)
    requires TreesInv(c) && Loadable(e) && MayOccur(c, file, e)
    ensures TreesInv(React(c, file, e))
  {
    hide Diff, Do, Sound, LoadConfig, BaseDocs, OverlayAll, AllShown, Acyclic, OnDisk, ProperDocs;
    match e
    case Call(s) => CallKeepsTrees(c, s);
    case Changed(fs, rank) => if LoadConfig(fs, rank, file).Some? { LoadStartsExactly(fs, rank, file); }
  }

  /** Over every run of calls and reloads, host leaves stay effective leaves with the same text or items, there is a
      host file, and a write is pending only while the configuration is locked. */
  lemma {:induction false} EventsKeepTrees(c: Config, file: string, es: seq<Event>)
    requires TreesInv(c) && (forall e :: e in es ==> Loadable(e)) && IsEventRun(c, file, es)
    ensures TreesInv(AfterEvents(c, file, es))
    decreases |es|
  {
    hide TreesInv, React, Loadable, MayOccur;
    if es != [] {
      assert es[0] in es;
      EventKeepsTrees(c, file, es[0]);
      EventsKeepTrees(React(c, file, es[0]), file, es[1..]);
    }
  }

  /** An event keeps the whole invariant if and only if it does not disturb the file. */
  lemma EventKeeps(c: Config, file: string, e: Event)
    requires Inv(c) && Loadable(e) && MayOccur(c, file, e)
    ensures Inv(React(c, file, e)) <==> !Disturbs(c, file, e)
  {
    hide Inv, Do, Reload, LoadConfig, BaseDocs, OverlayAll, AllShown, Acyclic, Fits, OnDisk, ReadsProper;
    match e
    case Call(s) => StepKeeps(c, s);
    case Changed(fs, rank) => InvParts(c); ReloadKeeps(c, fs, rank, file);
  }

  lemma InvParts(c: Config)
    requires Inv(c)
    ensures TreesInv(c)
  {
  }

  /** The whole invariant is kept over every run of calls and reloads that do not disturb the file. */
  lemma {:induction false} EventsKeep(c: Config, file: string, es: seq<Event>)
    requires Inv(c) && (forall e :: e in es ==> Loadable(e)) && IsEventRun(c, file, es) && Undisturbed(c, file, es)
    ensures Inv(AfterEvents(c, file, es))
    decreases |es|
  {
    hide Inv, React, Loadable, MayOccur, Disturbs;
    if es != [] {
      assert es[0] in es;
      EventKeeps(c, file, es[0]);
      EventsKeep(React(c, file, es[0]), file, es[1..]);
    }
  }

  /** Whatever was done to the file, the next set or erase that succeeds, or the end of a lock under which one
      did, makes the invariant whole again. */
  lemma NextWriteMends(c: Config, s: Step)
    requires TreesInv(c) && Enabled(c, s) && Do(c, s).ok && !s.Lock? && (s.Unlock? ==> c.pending)
    ensures Inv(Do(c, s).config)
  {
    hide Sound, Emit, Reread, Do;
    CallKeepsTrees(c, s);
    FileIsWritten(c, s);
    if !Do(c, s).config.pending { StoredNow(Do(c, s).config); }
  }

  lemma FileIsWritten(c: Config, s: Step)
    requires TreesInv(c) && Do(c, s).ok && !s.Lock? && (s.Unlock? ==> c.pending)
    ensures Do(c, s).config.pending || Do(c, s).config.file == Emit(Do(c, s).config.host)
  {
    hide SetValue, SetListAt, ConfigTree.Erase, Emit, Split, Sound;
  }

  lemma WrittenLeafs(t: Tree)
    requires Named(t)
    ensures Reread(Emit(t)).Some? && Leafs(Reread(Emit(t)).value).Keys == Leafs(t).Keys
  {
    hide Leafs, ReadBack, PlainLeaf, Named;
    RereadTree(t);
    if HasKids(t) {
      forall p ensures p in Leafs(ReadBack(t, "root")) <==> p in Leafs(t) { ReadBackLeafs(t, p); }
    } else {
      NoLeafs(t);
      NoLeafs(NewRoot());
    }
  }

  /** An edit of the host file that changes no effective leaf, such as a value moved there from another file, is
      not taken over by the reload, and the next set that is written removes it from the file. */
  lemma MissedEditIsOverwritten(c: Config, fs: FileSystem, rank: string -> nat, file: string, path: string,
      text: string)
    requires Inv(c) && !c.locked && Split(path) != [] && !IsInterior(c.root, Split(path))
    requires Acyclic(fs, rank) && LoadConfig(fs, rank, file).Some?
             && Diff(c.root, LoadConfig(fs, rank, file).value.root) == []
    ensures var l := LoadConfig(fs, rank, file).value;
            var r := Do(Reload(c, fs, Some(l)), Put(path, text));
            && r.ok && Reread(r.config.file).Some?
            && forall q :: q in Leafs(l.host) && q !in Leafs(c.host) && q != Split(path) ==>
               q !in Leafs(Reread(r.config.file).value)
  {
    hide Diff, Leafs, Emit, Reread, OnDisk, SetValue, Named, HostWithin, Fits, KindAt, WithoutPrefixes, IsInterior,
         Split, LoadConfig;
    var p := Split(path);
    PutBothTrees(c.root, c.host, p, text);
    var h := SetValue(c.host, p, text).tree;
    InteriorWithin(c.root, c.host, p);
    SetValueLeafs(c.host, p, text);
    WrittenLeafs(h);
    OnlyPut(Leafs(c.host), p, Leaf(KindAt(Leafs(c.host), p, text), text, []));
  }

  lemma OnlyPut(m: map<Path, Leaf>, p: Path, l: Leaf)
    ensures forall q :: q in WithoutPrefixes(m, p)[p := l] ==> q == p || q in m
  {
  }
}
