/** YamlConfiguration (src/libs/config/yaml.cpp): two trees of nodes on the heap, changed together. */
module YamlConfig {
  import opened Paths
  import opened ScalarText
  import opened ConfigTree
  import opened ConfigMerge
  import opened ConfigDoc
  import opened ConfigLoad
  import opened ConfigRuns
  import opened ConfigLayers
  import opened ConfigStart
  import opened ConfigReload
  import opened YamlNode
  import opened MapFacts
  import LeafDiff

  // ---- Reading files ----

  /** The documents have no key that names nothing. */
  ghost predicate WellKeyedFiles(fs: FileSystem) {
    forall f :: f in fs.files && ConfigOf(fs, f).Some? ==> WellKeyed(ConfigOf(fs, f).value)
  }

  /** The loop over the includes of a meta document: what it pushes on the queue, and the host file. */
  method ReadMetaDoc(fs: FileSystem, incs: seq<Include>, queue: seq<QueueEntry>, hostFile: string)
    returns (ok: bool, queue': seq<QueueEntry>, hostFile': string)
    ensures ok <==> ReadMeta(fs, incs, hostFile).Some?
    ensures ok ==> hostFile' == ReadMeta(fs, incs, hostFile).value && queue' == queue + PushedAll(fs, incs)
    ensures hostFile' == MetaHost(fs, incs, hostFile)
  {
    queue', hostFile' := queue, hostFile;
    var i := 0;
    assert incs[0..] == incs;
    while i < |incs|
      invariant 0 <= i <= |incs|
      invariant ReadMeta(fs, incs, hostFile) == ReadMeta(fs, incs[i..], hostFile')
      invariant MetaHost(fs, incs, hostFile) == MetaHost(fs, incs[i..], hostFile')
      invariant queue' + PushedAll(fs, incs[i..]) == queue + PushedAll(fs, incs)
    {
      var inc := incs[i];
      MetaStep(fs, incs, i, queue');
      match inc {
        case HostSpecific(file) =>
          if hostFile' != "" {
            return false, queue', hostFile';
          }
          hostFile' := file;
        case InvalidInclude =>
          return false, queue', hostFile';
        case IncludeFile(file, ignoreMissing) =>
          queue' := queue' + [QueueEntry(file, ignoreMissing, false)];
        case IncludeDir(dir, ignoreMissing) =>
          if dir in fs.dirs {
            queue' := queue' + [QueueEntry(dir, ignoreMissing, true)];
            queue' := PushFiles(queue', fs.dirs[dir], ignoreMissing);
          } else if dir in fs.files || !ignoreMissing {
            return false, queue', hostFile';
          }
      }
      i := i + 1;
    }
    ok := true;
  }

  lemma MetaStep(fs: FileSystem, incs: seq<Include>, i: nat, queue: seq<QueueEntry>)
    requires i < |incs|
    ensures incs[i..][0] == incs[i] && incs[i..][1..] == incs[i + 1..]
    ensures queue + PushedAll(fs, incs[i..]) == queue + Pushed(fs, incs[i]) + PushedAll(fs, incs[i + 1..])
    ensures queue + [] == queue
    ensures forall e, r: seq<QueueEntry> :: queue + [e] + r == queue + ([e] + r)
  {
    var r := PushedAll(fs, incs[i + 1..]);
    assert queue + (Pushed(fs, incs[i]) + r) == queue + Pushed(fs, incs[i]) + r;
  }

  /** The loop over the sorted files of a directory. */
  method PushFiles(queue: seq<QueueEntry>, names: seq<string>, ignoreMissing: bool) returns (queue': seq<QueueEntry>)
    ensures queue' == queue + DirEntries(names, ignoreMissing)
  {
    queue' := queue;
    var i := 0;
    while i < |names|
      invariant 0 <= i <= |names|
      invariant queue' == queue + DirEntries(names, ignoreMissing)[..i]
    {
      queue' := queue' + [QueueEntry(names[i], ignoreMissing, false)];
      i := i + 1;
    }
    assert DirEntries(names, ignoreMissing)[..i] == DirEntries(names, ignoreMissing);
  }

  /** read_yaml_file: the tree of a file, if it has one; false where the source throws. */
  method ReadYamlFile(fs: FileSystem, e: QueueEntry, queue: seq<QueueEntry>, hostFile: string)
    returns (ok: bool, node: Option<YamlConfigurationNode>, ghost s: Option<Shape>, queue': seq<QueueEntry>,
        hostFile': string)
    requires WellKeyedFiles(fs) && !e.isDir
    ensures ok <==> Read(fs, e, hostFile).Some?
    ensures ok ==> queue' == queue + Next(fs, e) && Read(fs, e, hostFile) == Some(hostFile')
    ensures hostFile' == FileHost(fs, e, hostFile)
    ensures ok ==> (node.Some? <==> ConfigOf(fs, e.file).Some?)
    ensures ok && node.Some? ==> s.Some? && Valid(s.value) && s.value.node == node.value && fresh(s.value.nodes)
    ensures ok && node.Some? ==> Some(Abs(s.value)) == ConfigDoc.Create(ConfigOf(fs, e.file).value, "root")
  {
    hide Valid, Abs, ConfigDoc.Create, WellKeyed;
    node, s, queue', hostFile' := None, None, queue, hostFile;
    ok := true;
    ghost var shape;
    ConcatEmpty(queue);
    if e.file !in fs.files {
      ok := e.ignoreMissing;
      return;
    }
    match fs.files[e.file] {
      case Broken => ok := false;
      case NoDocument =>
      case ConfigOnly(config) =>
        node, shape := YamlConfigurationNode.Create(config, "root");
        ok, s := node.Some?, Some(shape);
      case WithMeta(includes, config) =>
        ok, queue', hostFile' := ReadMetaDoc(fs, includes, queue, hostFile);
        if ok {
          node, shape := YamlConfigurationNode.Create(config, "root");
          ok, s := node.Some?, Some(shape);
        }
    }
  }

  /** What reading a file leaves the host file name at, or None if it throws. */
  function Read(fs: FileSystem, e: QueueEntry, hostFile: string): Option<string> {
    if Unreadable(fs, e)
        || (ConfigOf(fs, e.file).Some? && ConfigDoc.Create(ConfigOf(fs, e.file).value, "root").None?) then None
    else ReadMeta(fs, Includes(fs, e), hostFile)
  }

  lemma LoadEntryReads(fs: FileSystem, e: QueueEntry, l: Loading)
    requires !e.isDir
    ensures Read(fs, e, l.host).None? ==> LoadEntry(fs, e, l).None?
    ensures Read(fs, e, l.host).Some? && ConfigOf(fs, e.file).None? ==>
            LoadEntry(fs, e, l) == Some(l.(host := Read(fs, e, l.host).value))
    ensures Read(fs, e, l.host).Some? && ConfigOf(fs, e.file).Some? ==>
              var r := MergeInto(l.root, ConfigDoc.Create(ConfigOf(fs, e.file).value, "root").value);
              LoadEntry(fs, e, l) ==
                  if r.ok then Some(Loading(r.tree, Read(fs, e, l.host).value, l.files + [e.file], l.dirs)) else None
  {
  }

  /** The first loop of read_yaml_config. */
  method ReadAll(fs: FileSystem, filename: string, ghost rank: string -> nat)
    returns (ok: bool, root: YamlConfigurationNode, ghost rs: Shape, hostFile: string, files: seq<string>,
        dirs: seq<string>)
    requires WellKeyedFiles(fs) && Acyclic(fs, rank)
    ensures fresh(rs.nodes) && Valid(rs) && rs.node == root && IsContainer(root.kind) && Clean(Abs(rs))
    ensures var l := Load(fs, rank, [QueueEntry(filename, false, false)], rank(filename) + 1, START);
            (ok <==> l.Some?) && (ok ==> l == Some(Loading(Abs(rs), hostFile, files, dirs)))
    ensures LoadReached(fs, rank, [QueueEntry(filename, false, false)], rank(filename) + 1, START) ==
            Loading(Abs(rs), hostFile, files, dirs)
  {
    hide Valid, Abs, Clean, IsContainer, Load, LoadReached, Acyclic, RanksBelow, SizeAll, MergeInto, LoadEntry,
         EntryReached, Read, FileHost;
    root := new YamlConfigurationNode.Root();
    rs := Single(root);
    NewRootClean(rs);
    hostFile, files, dirs := "", [], [];
    var queue := [QueueEntry(filename, false, false)];
    ghost var b := rank(filename) + 1;
    StartRanks(filename, rank);
    ghost var goal, end := Load(fs, rank, queue, b, START), LoadReached(fs, rank, queue, b, START);
    while queue != []
      invariant fresh(rs.nodes) && Valid(rs) && rs.node == root && IsContainer(root.kind) && Clean(Abs(rs))
      invariant RanksBelow(queue, rank, b) && goal == Load(fs, rank, queue, b, Loading(Abs(rs), hostFile, files, dirs))
      invariant end == LoadReached(fs, rank, queue, b, Loading(Abs(rs), hostFile, files, dirs))
      decreases SizeAll(fs, rank, queue, b)
    {
      var e := queue[0];
      QueueShrinks(fs, rank, queue, b);
      LoadRound(fs, rank, queue, b, Loading(Abs(rs), hostFile, files, dirs));
      ghost var l := Loading(Abs(rs), hostFile, files, dirs);
      if e.isDir {
        dirs := dirs + [e.file];
        NoNextOfDir(fs, e);
        ConcatEmpty(queue[1..]);
        LoadDir(fs, e, l);
        queue := queue[1..];
      } else {
        LoadEntryReads(fs, e, l);
        EntryReads(fs, e, l);
        var node;
        ghost var ns;
        ok, node, ns, queue, hostFile := ReadYamlFile(fs, e, queue[1..], hostFile);
        if !ok {
          return;
        }
        if node.Some? {
          files := files + [e.file];
          Owned(rs);
          ok, rs := root.Merge(rs, node.value, ns.value);
          if !ok {
            return;
          }
        }
      }
    }
    LoadEnds(fs, rank, b, Loading(Abs(rs), hostFile, files, dirs));
    ok := true;
  }

  /** What a round leaves, told from what reading the file gives. */
  lemma EntryReads(fs: FileSystem, e: QueueEntry, l: Loading)
    requires !e.isDir
    ensures Read(fs, e, l.host).None? || ConfigOf(fs, e.file).None? ==>
            EntryReached(fs, e, l) == l.(host := FileHost(fs, e, l.host))
    ensures Read(fs, e, l.host).Some? && ConfigOf(fs, e.file).Some? ==>
              var r := MergeInto(l.root, ConfigDoc.Create(ConfigOf(fs, e.file).value, "root").value);
              EntryReached(fs, e, l) == Loading(r.tree, FileHost(fs, e, l.host), l.files + [e.file], l.dirs)
  {
  }

  lemma NewRootClean(s: Shape)
    requires Valid(s) && Abs(s) == NewRoot()
    ensures Clean(Abs(s)) && IsContainer(s.node.kind)
  {
    TopFields(s);
  }

  lemma StartRanks(file: string, rank: string -> nat)
    ensures RanksBelow([QueueEntry(file, false, false)], rank, rank(file) + 1)
  {
  }

  lemma LoadRound(fs: FileSystem, rank: string -> nat, q: seq<QueueEntry>, b: nat, l: Loading)
    requires Acyclic(fs, rank) && RanksBelow(q, rank, b) && q != []
    ensures RanksBelow(q[1..] + Next(fs, q[0]), rank, b)
    ensures Load(fs, rank, q, b, l) ==
            var l' := LoadEntry(fs, q[0], l);
            if l'.None? then None else Load(fs, rank, q[1..] + Next(fs, q[0]), b, l'.value)
    ensures LoadReached(fs, rank, q, b, l) ==
            var l' := EntryReached(fs, q[0], l);
            if LoadEntry(fs, q[0], l).None? then l' else LoadReached(fs, rank, q[1..] + Next(fs, q[0]), b, l')
  {
    QueueShrinks(fs, rank, q, b);
  }

  lemma LoadEnds(fs: FileSystem, rank: string -> nat, b: nat, l: Loading)
    requires Acyclic(fs, rank)
    ensures RanksBelow([], rank, b) && Load(fs, rank, [], b, l) == Some(l) && LoadReached(fs, rank, [], b, l) == l
  {
  }

  lemma LoadDir(fs: FileSystem, e: QueueEntry, l: Loading)
    requires e.isDir
    ensures LoadEntry(fs, e, l) == Some(l.(dirs := l.dirs + [e.file]))
            && EntryReached(fs, e, l) == l.(dirs := l.dirs + [e.file])
  {
  }

  lemma LoadHostReads(fs: FileSystem, l: Loading)
    requires l.host != ""
    ensures var e, config := HostEntry(l.host), ConfigOf(fs, l.host);
            && (Read(fs, e, l.host).None? || Next(fs, e) != [] ==> LoadHost(fs, l).None?)
            && (Read(fs, e, l.host).Some? && Next(fs, e) == [] ==>
              if config.None? then LoadHost(fs, l) == Some(Loaded(l.root, NewRoot(), l.host, l.files, l.dirs))
              else var t := ConfigDoc.Create(config.value, "root").value; var r := MergeInto(l.root, t);
                LoadHost(fs, l) == if r.ok then Some(Loaded(r.tree, t, l.host, l.files + [l.host], l.dirs)) else None)
  {
  }

  lemma HostReads(fs: FileSystem, l: Loading)
    requires l.host != ""
    ensures var e, config := HostEntry(l.host), ConfigOf(fs, l.host);
            var t := if config.Some? then ConfigDoc.Create(config.value, "root") else None;
            HostReached(fs, l) ==
            if Read(fs, e, l.host).None? then Reached(l.root, FileHost(fs, e, l.host), None)
            else if Next(fs, e) != [] then Reached(l.root, l.host, Some(t))
            else if t.None? then Reached(l.root, l.host, Some(Some(NewRoot())))
            else Reached(MergeInto(l.root, t.value).tree, l.host, Some(t))
  {
  }

  /** read_yaml_config. The effective tree and the host file name are set as far as it gets; host is what was
      assigned to the host tree, if anything. */
  method ReadYamlConfig(fs: FileSystem, filename: string, ghost rank: string -> nat)
    returns (ok: bool, root: YamlConfigurationNode, ghost rs: Shape, host: Option<YamlConfigurationNode?>,
        ghost hs: Shape,
             hostFile: string, files: seq<string>, dirs: seq<string>)
    requires WellKeyedFiles(fs) && Acyclic(fs, rank)
    ensures Valid(rs) && rs.node == root && fresh(rs.nodes)
    ensures host.Some? && host.value != null ==>
            Valid(hs) && hs.node == host.value && fresh(hs.nodes) && rs.nodes !! hs.nodes
    ensures ok <==> LoadConfig(fs, rank, filename).Some?
    ensures ok ==> host.Some? && host.value != null
    ensures ok ==> LoadConfig(fs, rank, filename) == Some(Loaded(Abs(rs), Abs(hs), hostFile, files, dirs))
    ensures ConfigReached(fs, rank, filename) == Reached(Abs(rs), hostFile, HostAbs(host, hs))
  {
    hide Valid, Abs, Clean, IsContainer, Load, LoadReached, LoadHost, HostReached, Acyclic, MergeInto, ConfigDoc.Create,
         Next, ConfigOf, FileHost;
    ok, root, rs, hostFile, files, dirs := ReadAll(fs, filename, rank);
    host, hs := None, rs;
    if !ok {
      return;
    }
    ghost var l := Loading(Abs(rs), hostFile, files, dirs);
    if hostFile != "" {
      LoadHostReads(fs, l);
      HostReads(fs, l);
      ConcatEmpty(Next(fs, HostEntry(hostFile)));
      MetaKeepsHost(fs, Includes(fs, HostEntry(hostFile)), hostFile);
      var node, queue;
      ghost var ns;
      ok, node, ns, queue, hostFile := ReadYamlFile(fs, HostEntry(hostFile), [], hostFile);
      if !ok {
        return;
      }
      host := Some(if node.Some? then node.value else null);
      if node.Some? { hs := ns.value; }
      if queue != [] {
        ok := false;
        return;
      }
      if node.Some? {
        ok, rs := root.Merge(rs, node.value, ns.value);
        files := files + [hostFile];
      } else {
        var r := new YamlConfigurationNode.Root();
        host, hs := Some(r), Single(r);
      }
    } else {
      LoadWithoutHost(fs, l);
      var r := new YamlConfigurationNode.Root();
      host, hs := Some(r), Single(r);
    }
  }

  /** The tree that was assigned, if any. */
  ghost function HostAbs(host: Option<YamlConfigurationNode?>, hs: Shape): Option<Option<Tree>>
    requires host.Some? && host.value != null ==> Valid(hs)
    reads hs.nodes
  {
    if host.None? then None else if host.value == null then Some(None) else Some(Some(Abs(hs)))
  }

  lemma LoadWithoutHost(fs: FileSystem, l: Loading)
    requires l.host == ""
    ensures LoadHost(fs, l) == Some(Loaded(l.root, NewRoot(), "", l.files, l.dirs))
    ensures HostReached(fs, l) == Reached(l.root, "", Some(Some(NewRoot())))
  {
  }

  /** Reading the host file cannot change the name of the host file. */
  lemma {:induction false} MetaKeepsHost(fs: FileSystem, incs: seq<Include>, hostFile: string)
    requires hostFile != ""
    ensures ReadMeta(fs, incs, hostFile).Some? ==> ReadMeta(fs, incs, hostFile).value == hostFile
  {
    if incs != [] && !Throws(fs, incs[0], hostFile) {
      MetaKeepsHost(fs, incs[1..], hostFile);
    }
  }

  // ---- The configuration object ----

  class YamlConfiguration {
    /** Both null until a load. */
    var root: YamlConfigurationNode?
    var hostRoot: YamlConfigurationNode?
    var hostFile: string
    var configFile: string
    var writePending: bool
    /** Whether the mutex is held, and the document in the host file on the disk. */
    var locked: bool
    var file: Option<Doc>
    ghost var rs: Shape
    ghost var hs: Shape

    /** The two trees are there and share no node: a change of one never shows in the other. */
    ghost predicate Intact()
      reads this, rs.nodes, hs.nodes
    {
      root != null && hostRoot != null && Valid(rs) && rs.node == root && Valid(hs) && hs.node == hostRoot
          && rs.nodes !! hs.nodes
    }

    ghost function State(): Config
      requires Intact()
      reads this, rs.nodes, hs.nodes
    {
      Config(Abs(rs), Abs(hs), hostFile, file, writePending, locked)
    }

    constructor ()
      ensures root == null && hostRoot == null && hostFile == "" && !writePending && !locked
    {
      var none := new YamlConfigurationNode.Root(); // for the shapes, which stand for nothing yet
      root, hostRoot, hostFile, configFile, writePending, locked, file := null, null, "", "", false, false, None;
      rs, hs := Single(none), Single(none);
    }

    /** The host tree is what was assigned to it, or else what it was. */
    ghost predicate HostLeft(host: Option<Option<Tree>>, was: YamlConfigurationNode?, ws: Shape)
      reads this, hs.nodes
    {
      if host.None? then hostRoot == was && hs == ws
      else if host.value.None? then hostRoot == null
      else hostRoot != null && Valid(hs) && hs.node == hostRoot && Abs(hs) == host.value.value
    }

    /** Assigns what was read, which may not reach the host tree. */
    method Assign(r: YamlConfigurationNode, ghost rs': Shape, h: Option<YamlConfigurationNode?>, ghost hs': Shape,
                  hostFile: string, file: Option<Doc>)
      requires Valid(rs') && rs'.node == r
      requires h.Some? && h.value != null ==> Valid(hs') && hs'.node == h.value && rs'.nodes !! hs'.nodes
      modifies this
      ensures root == r && rs == rs' && this.hostFile == hostFile && this.file == file
      ensures configFile == old(configFile) && writePending == old(writePending) && locked == old(locked)
      ensures Valid(rs) && Abs(rs) == old(Abs(rs'))
      ensures HostLeft(old(HostAbs(h, hs')), old(hostRoot), old(hs))
      ensures h.Some? ==> hostRoot == h.value && hs == hs'
      ensures h.Some? && h.value != null ==>
              Intact() && State() == Config(old(Abs(rs')), old(Abs(hs')), hostFile, file, writePending, locked)
    {
      hide Valid, Abs;
      root, rs, this.hostFile, this.file := r, rs', hostFile, file;
      if h.Some? {
        hostRoot, hs := h.value, hs';
      }
    }

    /** load: false where the source throws, which leaves both trees and the host file name as far as they were
        read; the host tree may still be the old one, or null. */
    method LoadFrom(fs: FileSystem, filename: string, ghost rank: string -> nat) returns (ok: bool)
      requires WellKeyedFiles(fs) && Acyclic(fs, rank)
      modifies this
      ensures configFile == filename && writePending == old(writePending) && locked == old(locked)
      ensures ok <==> LoadConfig(fs, rank, filename).Some?
      ensures ok ==> Intact() && fresh(rs.nodes) && fresh(hs.nodes)
      ensures ok ==>
                var c := Started(fs, LoadConfig(fs, rank, filename).value);
                State() == c.(pending := old(writePending), locked := old(locked))
      ensures root != null && Valid(rs) && rs.node == root && fresh(rs.nodes)
      ensures Abs(rs) == ConfigReached(fs, rank, filename).root
              && hostFile == ConfigReached(fs, rank, filename).hostFile
      ensures HostLeft(ConfigReached(fs, rank, filename).host, old(hostRoot), old(hs))
    {
      hide Valid, Abs, LoadConfig, ConfigReached, Acyclic, WellKeyedFiles, OnDisk, HostLeft, HostAbs, Intact;
      configFile := filename;
      var r, h, f, files, dirs;
      ghost var rs', hs';
      ok, r, rs', h, hs', f, files, dirs := ReadYamlConfig(fs, filename, rank);
      Assign(r, rs', h, hs', f, OnDisk(fs, f));
    }

    /** write_host_file */
    method WriteHostFile() returns (ok: bool)
      requires Intact()
      modifies this
      ensures root == old(root) && hostRoot == old(hostRoot) && rs == old(rs) && hs == old(hs)
              && configFile == old(configFile)
      ensures Intact() && Result(State(), ok) == WriteHost(old(State()))
    {
      hide Valid, Abs, Emit;
      if hostFile == "" {
        return false;
      }
      if !locked {
        file := hostRoot.Emit(hs);
      } else {
        writePending := true;
      }
      ok := true;
    }

    /** set_value on both trees, then write_host_file. */
    method SetScalar(path: string, text: string) returns (ok: bool)
      requires Intact()
      modifies this, rs.nodes, hs.nodes
      ensures Intact() && fresh(rs.nodes - old(rs.nodes)) && fresh(hs.nodes - old(hs.nodes))
      ensures Result(State(), ok) == ConfigRuns.Do(old(State()), ConfigRuns.Put(path, text))
      ensures old(Inv(State())) ==> Inv(State())
    {
      hide Valid, Abs, WriteHost, SetValue, Split, Inv;
      if Inv(State()) { StepKeeps(State(), ConfigRuns.Put(path, text)); }
      ok, rs := root.SetValue(rs, path, text);
      if !ok {
        return;
      }
      ok, hs := hostRoot.SetValue(hs, path, text);
      if !ok {
        return;
      }
      ok := WriteHostFile();
    }

    /** set_list on both trees, then write_host_file. */
    method SetItems(path: string, values: seq<string>) returns (ok: bool)
      requires Intact()
      modifies this, rs.nodes, hs.nodes
      ensures Intact() && fresh(rs.nodes - old(rs.nodes)) && fresh(hs.nodes - old(hs.nodes))
      ensures Result(State(), ok) == ConfigRuns.Do(old(State()), ConfigRuns.PutList(path, values))
      ensures old(Inv(State())) ==> Inv(State())
    {
      hide Valid, Abs, WriteHost, SetListAt, Split, Inv;
      if Inv(State()) { StepKeeps(State(), ConfigRuns.PutList(path, values)); }
      ok, rs := root.SetList(rs, path, values);
      if !ok {
        return;
      }
      ok, hs := hostRoot.SetList(hs, path, values);
      if !ok {
        return;
      }
      ok := WriteHostFile();
    }

    /** erase on both trees, the host tree first. */
    method Erase(path: string) returns (ok: bool)
      requires Intact() && Named(Abs(rs)) && Named(Abs(hs))
      modifies this, rs.nodes, hs.nodes
      ensures Intact() && fresh(rs.nodes - old(rs.nodes)) && fresh(hs.nodes - old(hs.nodes))
      ensures Result(State(), ok) == ConfigRuns.Do(old(State()), ConfigRuns.Remove(path))
      ensures old(Inv(State())) ==> Inv(State())
    {
      hide Valid, Abs, WriteHost, ConfigTree.Erase, Split, Named, Inv;
      if Inv(State()) { StepKeeps(State(), ConfigRuns.Remove(path)); }
      ok, hs := hostRoot.Erase(hs, path);
      if !ok {
        return;
      }
      ok, rs := root.Erase(rs, path);
      if !ok {
        return;
      }
      ok := WriteHostFile();
    }

    /** lock, once the mutex is free. */
    method LockIt()
      requires Intact() && !locked
      modifies this
      ensures Intact() && State() == old(State()).(locked := true)
      ensures old(Inv(State())) ==> Inv(State())
      ensures rs == old(rs) && hs == old(hs)
    {
      hide Valid, Abs, Inv;
      if Inv(State()) { StepKeeps(State(), ConfigRuns.Lock); }
      locked := true;
    }

    /** unlock: write what was set while the mutex was held. */
    method UnlockIt()
      requires Intact() && locked
      modifies this
      ensures Intact() && State() == UnlockNow(old(State()))
      ensures old(Inv(State())) ==> Inv(State())
      ensures rs == old(rs) && hs == old(hs)
    {
      hide Valid, Abs, Emit, Inv;
      if Inv(State()) { StepKeeps(State(), ConfigRuns.Unlock); }
      if writePending {
        file := hostRoot.Emit(hs);
        writePending := false;
      }
      locked := false;
    }

    /** fam_event: read the files again and take the new trees if their leaves differ. A reload that throws
        is only logged. Returns the paths whose handlers are called. */
    method FamEvent(fs: FileSystem, ghost rank: string -> nat) returns (changes: seq<string>)
      requires Intact() && !locked && WellKeyedFiles(fs) && Acyclic(fs, rank)
      modifies this
      ensures Intact() && configFile == old(configFile)
      ensures var l := LoadConfig(fs, rank, configFile);
              && State() == Reload(old(State()), fs, l)
              && changes == (if l.None? then [] else LeafDiff.Diff(old(Abs(rs)), l.value.root))
              && (old(Inv(State())) && ReadsProper(fs, rank, configFile) ==>
                    (Inv(State()) <==>
                     if Adopts(old(State()), l) then
                       l.value.hostFile != ""
                           && AllShown(OverlayAll(NewRoot(), BaseDocs(fs, rank, configFile)), l.value.host)
                     else Fits(OnDisk(fs, old(hostFile)), old(Abs(hs)))))
    {
      hide Valid, Abs, LoadConfig, Acyclic, WellKeyedFiles, LeafDiff.Diff, OnDisk, Inv, ReadsProper, AllShown, BaseDocs,
           OverlayAll, Fits;
      if Inv(State()) && ReadsProper(fs, rank, configFile) { ReloadKeeps(State(), fs, rank, configFile); }
      file := OnDisk(fs, hostFile);
      changes := [];
      var ok, r, h, f, files, dirs;
      ghost var rs', hs';
      ok, r, rs', h, hs', f, files, dirs := ReadYamlConfig(fs, configFile, rank);
      if ok {
        changes := YamlConfigurationNode.Diff(root, rs, r, rs');
        if changes != [] {
          Assign(r, rs', h, hs', f, OnDisk(fs, f));
        }
      }
    }
  }
}
