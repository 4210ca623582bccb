/** Which files a load reads, in which order, and when it succeeds (read_yaml_config, read_yaml_file and
    read_meta_doc in src/libs/config/yaml.cpp), told by the names of the files alone. */
module LoadOrder {
  import opened Paths
  import opened ScalarText
  import opened ConfigTree
  import opened ConfigMerge
  import opened OverlayLaws
  import opened ConfigDoc
  import opened ConfigLoad
  import opened ConfigLayers
  import opened ConfigStart
  import opened MapFacts

  // ---- The names of the files ----

  /** The files that an include asks for: itself, or the files of a directory in sorted order. */
  function Targets(fs: FileSystem, i: Include): seq<string> {
    match i
    case IncludeFile(file, _) => [file]
    case IncludeDir(dir, _) => if dir in fs.dirs then fs.dirs[dir] else []
    case _ => []
  }

  function AllTargets(fs: FileSystem, incs: seq<Include>): seq<string> {
    if incs == [] then [] else Targets(fs, incs[0]) + AllTargets(fs, incs[1..])
  }

  function IncludesOf(fs: FileSystem, name: string): seq<Include> {
    if name in fs.files && fs.files[name].WithMeta? then fs.files[name].includes else []
  }

  function AllIncludes(fs: FileSystem, names: seq<string>): seq<Include> {
    if names == [] then [] else IncludesOf(fs, names[0]) + AllIncludes(fs, names[1..])
  }

  /** The files level by level: some files, then all that they include in their order, then all that those include. */
  function Levels(fs: FileSystem, names: seq<string>, depth: nat): seq<string>
    decreases depth
  {
    if depth == 0 || names == [] then []
    else names + Levels(fs, AllTargets(fs, AllIncludes(fs, names)), depth - 1)
  }

  /** All files that a load from a file reads, in the order in which it reads them. */
  function Order(fs: FileSystem, rank: string -> nat, file: string): seq<string> {
    Levels(fs, [file], rank(file) + 1)
  }

  // ---- The queue holds these names ----

  function Names(q: seq<QueueEntry>): seq<string> {
    if q == [] then [] else (if q[0].isDir then [] else [q[0].file]) + Names(q[1..])
  }

  lemma {:induction false} NamesConcat(q: seq<QueueEntry>, r: seq<QueueEntry>)
    ensures Names(q + r) == Names(q) + Names(r)
  {
    if q == [] {
      assert q + r == r;
    } else {
      assert (q + r)[0] == q[0] && (q + r)[1..] == q[1..] + r;
      NamesConcat(q[1..], r);
    }
  }

  lemma {:induction false} NamesOfFiles(names: seq<string>, ignoreMissing: bool)
    ensures Names(DirEntries(names, ignoreMissing)) == names
  {
    var es := DirEntries(names, ignoreMissing);
    if names != [] {
      assert es[1..] == DirEntries(names[1..], ignoreMissing);
      NamesOfFiles(names[1..], ignoreMissing);
    }
  }

  lemma NamesPushed(fs: FileSystem, i: Include)
    ensures Names(Pushed(fs, i)) == Targets(fs, i)
  {
    if i.IncludeDir? && i.dir in fs.dirs {
      NamesConcat([QueueEntry(i.dir, i.ignoreMissing, true)], DirEntries(fs.dirs[i.dir], i.ignoreMissing));
      NamesOfFiles(fs.dirs[i.dir], i.ignoreMissing);
    }
  }

  lemma {:induction false} NamesPushedAll(fs: FileSystem, incs: seq<Include>)
    ensures Names(PushedAll(fs, incs)) == AllTargets(fs, incs)
  {
    hide Pushed, Targets;
    if incs != [] {
      NamesPushed(fs, incs[0]);
      NamesConcat(Pushed(fs, incs[0]), PushedAll(fs, incs[1..]));
      NamesPushedAll(fs, incs[1..]);
    }
  }

  lemma {:induction false} TargetsConcat(fs: FileSystem, a: seq<Include>, b: seq<Include>)
    ensures AllTargets(fs, a + b) == AllTargets(fs, a) + AllTargets(fs, b)
  {
    if a == [] {
      assert a + b == b;
    } else {
      assert (a + b)[0] == a[0] && (a + b)[1..] == a[1..] + b;
      TargetsConcat(fs, a[1..], b);
    }
  }

  lemma {:induction false} NamesNext(fs: FileSystem, q: seq<QueueEntry>)
    ensures Names(NextAll(fs, q)) == AllTargets(fs, AllIncludes(fs, Names(q)))
  {
    if q != [] {
      var e, rest := q[0], q[1..];
      NamesNext(fs, rest);
      NamesConcat(Next(fs, e), NextAll(fs, rest));
      NamesPushedAll(fs, Includes(fs, e));
      if e.isDir {
        NoNextOfDir(fs, e);
        assert [] + Names(rest) == Names(rest);
      } else {
        assert ([e.file] + Names(rest))[1..] == Names(rest);
        TargetsConcat(fs, IncludesOf(fs, e.file), AllIncludes(fs, Names(rest)));
      }
    }
  }

  lemma {:induction false} NoNamesBelow(q: seq<QueueEntry>, rank: string -> nat)
    requires RanksBelow(q, rank, 0)
    ensures Names(q) == []
  {
    if q != [] {
      assert q[0] in q;
      NoNamesBelow(q[1..], rank);
    }
  }

  lemma {:induction false} NextRanks(fs: FileSystem, rank: string -> nat, q: seq<QueueEntry>, c: nat)
    requires Acyclic(fs, rank) && RanksBelow(q, rank, c)
    ensures c > 0 ==> RanksBelow(NextAll(fs, q), rank, c - 1)
    ensures c == 0 ==> RanksBelow(NextAll(fs, q), rank, 0)
    decreases |q|
  {
    if q != [] {
      NextRanks(fs, rank, q[1..], c);
      assert q[0] in q;
      if q[0].isDir { NoNextOfDir(fs, q[0]); }
    }
  }

  lemma LevelStep(fs: FileSystem, names: seq<string>, depth: nat)
    ensures depth > 0 ==>
            Levels(fs, names, depth) == names + Levels(fs, AllTargets(fs, AllIncludes(fs, names)), depth - 1)
    ensures names == [] || depth == 0 ==> Levels(fs, names, depth) == []
  {
    if names == [] {
      assert AllTargets(fs, AllIncludes(fs, names)) == [];
    }
  }

  /** The queue meets the files level by level. */
  lemma {:induction false} BreadthFirstLevels(fs: FileSystem, rank: string -> nat, q: seq<QueueEntry>, b: nat, c: nat)
    requires Acyclic(fs, rank) && RanksBelow(q, rank, b) && RanksBelow(q, rank, c)
    ensures Names(BreadthFirst(fs, rank, q, b)) == Levels(fs, Names(q), c)
    decreases SizeAll(fs, rank, q, b)
  {
    hide Acyclic, RanksBelow, Next, AllTargets, AllIncludes, Levels;
    LevelStep(fs, Names(q), c);
    if q != [] {
      NextAllShrinks(fs, rank, q, b);
      NextRanks(fs, rank, q, c);
      var n := NextAll(fs, q);
      NamesNext(fs, q);
      NamesConcat(q, BreadthFirst(fs, rank, n, b));
      BreadthFirstLevels(fs, rank, n, b, if c > 0 then c - 1 else 0);
      if c == 0 {
        NoNamesBelow(q, rank);
        LevelStep(fs, Names(n), 0);
      }
    }
  }

  lemma OrderIsLoaded(fs: FileSystem, rank: string -> nat, file: string)
    requires Acyclic(fs, rank)
    ensures Names(BreadthFirst(fs, rank, [QueueEntry(file, false, false)], rank(file) + 1)) == Order(fs, rank, file)
  {
    hide BreadthFirst, Levels, Acyclic;
    var q := [QueueEntry(file, false, false)];
    BreadthFirstLevels(fs, rank, q, rank(file) + 1, rank(file) + 1);
    assert q[1..] == [] && [file] + [] == [file];
    assert Names(q) == [file];
  }

  // ---- The documents in that order ----

  /** The tree that a file contributes, if it has a configuration document. */
  function TreeOf(fs: FileSystem, name: string): Option<Tree> {
    if ConfigOf(fs, name).Some? then Create(ConfigOf(fs, name).value, "root") else None
  }

  function Trees(fs: FileSystem, names: seq<string>): seq<Tree> {
    if names == [] then []
    else (if TreeOf(fs, names[0]).Some? then [TreeOf(fs, names[0]).value] else []) + Trees(fs, names[1..])
  }

  lemma {:induction false} DocsOfNames(fs: FileSystem, q: seq<QueueEntry>)
    ensures Docs(fs, q) == Trees(fs, Names(q))
  {
    hide Create, ConfigOf;
    if q != [] {
      DocsOfNames(fs, q[1..]);
      if q[0].isDir {
        ConcatEmpty(Docs(fs, q[1..]));
        ConcatEmpty(Names(q[1..]));
      } else {
        assert ([q[0].file] + Names(q[1..]))[1..] == Names(q[1..]);
      }
    }
  }

  lemma BaseDocsInOrder(fs: FileSystem, rank: string -> nat, file: string)
    requires Acyclic(fs, rank)
    ensures BaseDocs(fs, rank, file) == Trees(fs, Order(fs, rank, file))
  {
    hide BreadthFirst, Acyclic, Order, Docs, Trees, Names;
    OrderIsLoaded(fs, rank, file);
    DocsOfNames(fs, BreadthFirst(fs, rank, [QueueEntry(file, false, false)], rank(file) + 1));
  }

  lemma {:induction false} TreesConcat(fs: FileSystem, a: seq<string>, b: seq<string>)
    ensures Trees(fs, a + b) == Trees(fs, a) + Trees(fs, b)
  {
    hide TreeOf;
    if a == [] {
      assert a + b == b;
    } else {
      assert (a + b)[0] == a[0] && (a + b)[1..] == a[1..] + b;
      TreesConcat(fs, a[1..], b);
    }
  }

  /** The document defines the path or replaces a whole sequence of maps around it. */
  ghost predicate Touches(d: Tree, p: Path) {
    p in Leafs(d) || ReplacedBelow(d, p)
  }

  ghost predicate FileTouches(fs: FileSystem, name: string, p: Path) {
    TreeOf(fs, name).Some? && Touches(TreeOf(fs, name).value, p)
  }

  lemma {:induction false} UntouchedTrees(fs: FileSystem, names: seq<string>, p: Path)
    requires forall n :: n in names ==> !FileTouches(fs, n, p)
    ensures forall d :: d in Trees(fs, names) ==> !Touches(d, p)
  {
    hide TreeOf, Touches;
    if names != [] {
      assert names[0] in names;
      UntouchedTrees(fs, names[1..], p);
    }
  }

  lemma {:induction false} LastToucher(before: seq<Tree>, d: Tree, after: seq<Tree>, p: Path)
    requires p in Leafs(d) && forall x :: x in after ==> !Touches(x, p)
    ensures LastValue(before + [d] + after, p) == Some(Leafs(d)[p])
    decreases |after|
  {
    hide Leafs, ReplacedBelow;
    var all := before + [d] + after;
    if after == [] {
      assert all[|all| - 1] == d;
    } else {
      var n := |after| - 1;
      assert all[|all| - 1] == after[n] && after[n] in after;
      assert all[..|all| - 1] == before + [d] + after[..n];
      LastToucher(before, d, after[..n], p);
    }
  }

  /** A path has the value of the last file in the order of the load that defines it, unless a later file or the host
      file touches it. */
  lemma LastNameWins(fs: FileSystem, rank: string -> nat, file: string, i: nat, p: Path)
    requires Acyclic(fs, rank) && LoadConfig(fs, rank, file).Some? && p != []
    requires Harmonious(BaseDocs(fs, rank, file) + [LoadConfig(fs, rank, file).value.host])
    requires i < |Order(fs, rank, file)|
    requires var d := TreeOf(fs, Order(fs, rank, file)[i]); d.Some? && p in Leafs(d.value)
    requires forall j :: i < j < |Order(fs, rank, file)| ==> !FileTouches(fs, Order(fs, rank, file)[j], p)
    requires !Touches(LoadConfig(fs, rank, file).value.host, p)
    ensures LeafVal(LoadConfig(fs, rank, file).value.root, p) ==
            Some(Leafs(TreeOf(fs, Order(fs, rank, file)[i]).value)[p])
  {
    hide Acyclic, LoadConfig, Harmonious, BaseDocs, Order, Leafs, TreeOf, LeafVal, LastValue, ReplacedBelow;
    var names, host := Order(fs, rank, file), LoadConfig(fs, rank, file).value.host;
    var a, n, b := names[..i], names[i], names[i + 1..];
    var d := TreeOf(fs, n).value;
    LastFileWins(fs, rank, file, p);
    BaseDocsInOrder(fs, rank, file);
    assert names == a + ([n] + b) && [n][1..] == [];
    TreesConcat(fs, a, [n] + b);
    TreesConcat(fs, [n], b);
    OneTree(fs, n);
    UntouchedTrees(fs, b, p);
    LastToucher(Trees(fs, a), d, Trees(fs, b) + [host], p);
    Regroup(Trees(fs, a), d, Trees(fs, b), host);
  }

  lemma OneTree(fs: FileSystem, n: string)
    requires TreeOf(fs, n).Some?
    ensures Trees(fs, [n]) == [TreeOf(fs, n).value]
  {
    assert [n][1..] == [] && Trees(fs, []) == [];
  }

  lemma Regroup(a: seq<Tree>, d: Tree, b: seq<Tree>, host: Tree)
    ensures a + ([d] + b) + [host] == a + [d] + (b + [host])
  {
  }

  // ---- The files of a directory ----

  lemma OneLevel(fs: FileSystem, file: string)
    ensures AllIncludes(fs, [file]) == IncludesOf(fs, file)
  {
    assert [file][1..] == [] && AllIncludes(fs, []) == [];
  }

  lemma OneTarget(fs: FileSystem, i: Include)
    ensures AllTargets(fs, [i]) == Targets(fs, i)
  {
    assert [i][1..] == [] && AllTargets(fs, []) == [];
  }

  /** A file that includes anything has room for the next level. */
  lemma RankOfIncluder(fs: FileSystem, rank: string -> nat, file: string)
    requires Acyclic(fs, rank)
    ensures rank(file) > 0 || AllTargets(fs, IncludesOf(fs, file)) == []
  {
    hide Acyclic, AllTargets, Next, IncludesOf;
    var q := [QueueEntry(file, false, false)];
    OneName(file);
    OneLevel(fs, file);
    NamesNext(fs, q);
    if rank(file) == 0 {
      NextRanks(fs, rank, q, 1);
      NoNamesBelow(NextAll(fs, q), rank);
    }
  }

  lemma OneName(file: string)
    ensures Names([QueueEntry(file, false, false)]) == [file]
  {
    var q := [QueueEntry(file, false, false)];
    assert q[1..] == [] && [file] + [] == [file];
  }

  /** Where the targets of an include are in the order: behind the file and what it includes before, and in front of
      what it includes after and of all that is included further down. */
  lemma TargetsInOrder(fs: FileSystem, rank: string -> nat, file: string, before: seq<Include>, i: Include,
      after: seq<Include>) returns (further: seq<string>)
    requires Acyclic(fs, rank) && IncludesOf(fs, file) == before + [i] + after
    ensures Order(fs, rank, file) ==
            [file] + AllTargets(fs, before) + Targets(fs, i) + AllTargets(fs, after) + further
  {
    hide Targets, Levels, Acyclic, IncludesOf;
    var next := AllTargets(fs, IncludesOf(fs, file));
    RankOfIncluder(fs, rank, file);
    LevelStep(fs, [file], rank(file) + 1);
    LevelStep(fs, next, rank(file));
    OneLevel(fs, file);
    TargetsConcat(fs, before + [i], after);
    TargetsConcat(fs, before, [i]);
    OneTarget(fs, i);
    further := [];
    if rank(file) > 0 { further := Levels(fs, AllTargets(fs, AllIncludes(fs, next)), rank(file) - 1); }
    var t, a, b := Targets(fs, i), AllTargets(fs, before), AllTargets(fs, after);
    assert [file] + (a + t + b + further) == [file] + a + t + b + further;
    assert [file] + [] == [file];
  }

  /** A directory decides by its last name: if a file includes it, every path has the value of the last of its files, in
      the order of their names, that defines the path, unless the host file or something that is loaded after the
      directory touches it. */
  lemma LastNameOfDirectory(fs: FileSystem, rank: string -> nat, file: string, before: seq<Include>, dir: string,
      ignoreMissing: bool, after: seq<Include>, j: nat, p: Path)
    requires Acyclic(fs, rank) && LoadConfig(fs, rank, file).Some? && p != []
    requires Harmonious(BaseDocs(fs, rank, file) + [LoadConfig(fs, rank, file).value.host])
    requires IncludesOf(fs, file) == before + [IncludeDir(dir, ignoreMissing)] + after
    requires dir in fs.dirs && j < |fs.dirs[dir]|
    requires TreeOf(fs, fs.dirs[dir][j]).Some? && p in Leafs(TreeOf(fs, fs.dirs[dir][j]).value)
    requires forall k :: j < k < |fs.dirs[dir]| ==> !FileTouches(fs, fs.dirs[dir][k], p)
    requires var n := 1 + |AllTargets(fs, before)| + |fs.dirs[dir]|;
             forall k :: n <= k < |Order(fs, rank, file)| ==> !FileTouches(fs, Order(fs, rank, file)[k], p)
    requires !Touches(LoadConfig(fs, rank, file).value.host, p)
    ensures LeafVal(LoadConfig(fs, rank, file).value.root, p) ==
            Some(Leafs(TreeOf(fs, fs.dirs[dir][j]).value)[p])
  {
    hide Acyclic, LoadConfig, Harmonious, BaseDocs, Leafs, TreeOf, LeafVal, ReplacedBelow, IncludesOf, FileTouches,
         Order, AllTargets;
    var names, order, n := fs.dirs[dir], Order(fs, rank, file), 1 + |AllTargets(fs, before)|;
    NamesInOrder(fs, rank, file, before, dir, ignoreMissing, after);
    forall k | n + j < k < |order| ensures !FileTouches(fs, order[k], p) {
      if k < n + |names| { assert order[k] == names[k - n]; }
    }
    LastNameWins(fs, rank, file, n + j, p);
  }

  lemma NamesInOrder(fs: FileSystem, rank: string -> nat, file: string, before: seq<Include>, dir: string,
      ignoreMissing: bool, after: seq<Include>)
    requires Acyclic(fs, rank) && IncludesOf(fs, file) == before + [IncludeDir(dir, ignoreMissing)] + after
    requires dir in fs.dirs
    ensures var names, order, n := fs.dirs[dir], Order(fs, rank, file), 1 + |AllTargets(fs, before)|;
            |order| >= n + |names| && forall k :: n <= k < n + |names| ==> order[k] == names[k - n]
  {
    hide Acyclic, IncludesOf, Order, AllTargets;
    var further := TargetsInOrder(fs, rank, file, before, IncludeDir(dir, ignoreMissing), after);
  }

  /** A file that includes nothing but a directory whose files include nothing: the order is the file and then the
      names of the directory. */
  lemma OnlyDirectory(fs: FileSystem, rank: string -> nat, file: string, incs: seq<Include>, dir: string,
      ignoreMissing: bool)
    requires Acyclic(fs, rank) && IncludesOf(fs, file) == incs
    requires incs == [IncludeDir(dir, ignoreMissing)]
    requires dir in fs.dirs && forall n :: n in fs.dirs[dir] ==> IncludesOf(fs, n) == []
    ensures Order(fs, rank, file) == [file] + fs.dirs[dir]
  {
    hide Acyclic, IncludesOf, Levels;
    var names := fs.dirs[dir];
    RankOfIncluder(fs, rank, file);
    LevelStep(fs, [file], rank(file) + 1);
    LevelStep(fs, names, rank(file));
    OneLevel(fs, file);
    OneTarget(fs, incs[0]);
    NoFurther(fs, names);
    if rank(file) > 0 { LevelStep(fs, [], rank(file) - 1); }
  }

  lemma {:induction false} NoFurther(fs: FileSystem, names: seq<string>)
    requires forall n :: n in names ==> IncludesOf(fs, n) == []
    ensures AllTargets(fs, AllIncludes(fs, names)) == []
  {
    if names != [] {
      assert names[0] in names;
      NoFurther(fs, names[1..]);
      ConcatEmpty(AllIncludes(fs, names[1..]));
    }
  }

  // ---- What is watched ----

  function DirNames(q: seq<QueueEntry>): seq<string> {
    if q == [] then [] else (if q[0].isDir then [q[0].file] else []) + DirNames(q[1..])
  }

  /** The files with a configuration document. */
  function WithDocument(fs: FileSystem, names: seq<string>): seq<string> {
    if names == [] then [] else (if ConfigOf(fs, names[0]).Some? then [names[0]] else []) + WithDocument(fs, names[1..])
  }

  lemma {:induction false} SequenceWatched(fs: FileSystem, q: seq<QueueEntry>, l: Loading)
    requires LoadSeq(fs, q, l).Some?
    ensures LoadSeq(fs, q, l).value.files == l.files + WithDocument(fs, Names(q))
    ensures LoadSeq(fs, q, l).value.dirs == l.dirs + DirNames(q)
  {
    hide ConfigOf, LoadEntry, Names, DirNames, WithDocument;
    if q == [] {
      NothingWatched(fs);
    } else {
      var l' := LoadEntry(fs, q[0], l).value;
      SequenceWatched(fs, q[1..], l');
      EntryWatched(fs, q[0], l);
      WatchedStep(fs, q);
      Appended(l.files, if !q[0].isDir && ConfigOf(fs, q[0].file).Some? then [q[0].file] else [],
        WithDocument(fs, Names(q[1..])));
      Appended(l.dirs, if q[0].isDir then [q[0].file] else [], DirNames(q[1..]));
    }
  }

  lemma NothingWatched(fs: FileSystem)
    ensures WithDocument(fs, Names([])) == [] && DirNames([]) == []
  {
  }

  lemma Appended(a: seq<string>, b: seq<string>, c: seq<string>)
    ensures a + b + c == a + (b + c)
  {
  }

  lemma WatchedStep(fs: FileSystem, q: seq<QueueEntry>)
    requires q != []
    ensures WithDocument(fs, Names(q)) ==
            (if !q[0].isDir && ConfigOf(fs, q[0].file).Some? then [q[0].file] else [])
            + WithDocument(fs, Names(q[1..]))
    ensures DirNames(q) == (if q[0].isDir then [q[0].file] else []) + DirNames(q[1..])
  {
    hide ConfigOf;
    var names := Names(q[1..]);
    if q[0].isDir {
      ConcatEmpty(names);
      ConcatEmpty(WithDocument(fs, names));
    } else {
      assert ([q[0].file] + names)[1..] == names;
    }
  }

  lemma EntryWatched(fs: FileSystem, e: QueueEntry, l: Loading)
    requires LoadEntry(fs, e, l).Some?
    ensures var r := LoadEntry(fs, e, l).value;
            && r.files == l.files + (if !e.isDir && ConfigOf(fs, e.file).Some? then [e.file] else [])
            && r.dirs == l.dirs + (if e.isDir then [e.file] else [])
  {
    hide Create, MergeInto, ReadMeta, Includes, ConfigOf, Unreadable;
  }

  /** The files to be watched for changes: those of the load that have a document, and the host file if it has one. */
  lemma WatchedFiles(fs: FileSystem, rank: string -> nat, file: string)
    requires Acyclic(fs, rank) && LoadConfig(fs, rank, file).Some?
    ensures var l := LoadConfig(fs, rank, file).value;
            l.files == WithDocument(fs, Order(fs, rank, file)) +
                if l.hostFile != "" then WithDocument(fs, [l.hostFile]) else []
    ensures LoadConfig(fs, rank, file).value.dirs ==
            DirNames(BreadthFirst(fs, rank, [QueueEntry(file, false, false)], rank(file) + 1))
  {
    hide Acyclic, Order, BreadthFirst, LoadSeq, Load, Create, MergeInto, ReadMeta, Next, Includes, ConfigOf, DirNames,
         Unreadable;
    var q, b := [QueueEntry(file, false, false)], rank(file) + 1;
    OrderIsLoaded(fs, rank, file);
    LoadIsBreadthFirst(fs, rank, q, b, START);
    var bf := BreadthFirst(fs, rank, q, b);
    SequenceWatched(fs, bf, START);
    var m := LoadSeq(fs, bf, START).value;
    assert [] + WithDocument(fs, Order(fs, rank, file)) == m.files && [] + DirNames(bf) == m.dirs;
    assert [m.host][1..] == [] && [m.host] + [] == [m.host];
  }

  // ---- When a load succeeds ----

  predicate FileReadable(fs: FileSystem, name: string, ignoreMissing: bool) {
    if name in fs.files then !fs.files[name].Broken? else ignoreMissing
  }

  /** What an include asks for can be read: a file that is there and can be parsed, or is missing and may be; a
      directory with such files, or one that is missing, is nothing else and may be missing. */
  predicate IncludeReadable(fs: FileSystem, i: Include) {
    match i
    case HostSpecific(_) => true
    case IncludeFile(file, ignoreMissing) => FileReadable(fs, file, ignoreMissing)
    case IncludeDir(dir, ignoreMissing) =>
      if dir in fs.dirs then forall n :: n in fs.dirs[dir] ==> FileReadable(fs, n, ignoreMissing)
      else dir !in fs.files && ignoreMissing
    case InvalidInclude => false
  }

  /** No host file is named once there is one. */
  ghost predicate HostsAllowed(incs: seq<Include>, host: string) {
    forall j :: 0 <= j < |incs| && incs[j].HostSpecific? ==>
        host == "" && forall i :: 0 <= i < j && incs[i].HostSpecific? ==> incs[i].file == ""
  }

  lemma HostsStep(inc: Include, rest: seq<Include>, host: string)
    ensures HostsAllowed([inc] + rest, host) <==>
            (inc.HostSpecific? ==> host == "") && HostsAllowed(rest, HostAfter(inc, host))
  {
    hide HostsAllowed, HostAfter;
    HostsDown(inc, rest, host);
    if (inc.HostSpecific? ==> host == "") && HostsAllowed(rest, HostAfter(inc, host)) { HostsUp(inc, rest, host); }
  }

  lemma HostsDown(inc: Include, rest: seq<Include>, host: string)
    ensures HostsAllowed([inc] + rest, host) ==>
            (inc.HostSpecific? ==> host == "") && HostsAllowed(rest, HostAfter(inc, host))
  {
    var incs := [inc] + rest;
    assert incs[0] == inc && forall j :: 0 <= j < |rest| ==> incs[j + 1] == rest[j];
    if HostsAllowed(incs, host) {
      forall j | 0 <= j < |rest| && rest[j].HostSpecific?
        ensures HostAfter(inc, host) == ""
        ensures forall i :: 0 <= i < j && rest[i].HostSpecific? ==> rest[i].file == ""
      {
        assert incs[j + 1].HostSpecific?;
      }
    }
  }

  lemma HostsUp(inc: Include, rest: seq<Include>, host: string)
    requires (inc.HostSpecific? ==> host == "") && HostsAllowed(rest, HostAfter(inc, host))
    ensures HostsAllowed([inc] + rest, host)
  {
    var incs := [inc] + rest;
    forall j | 0 <= j < |incs| && incs[j].HostSpecific?
      ensures host == "" && forall i :: 0 <= i < j && incs[i].HostSpecific? ==> incs[i].file == ""
    {
      if j > 0 { assert rest[j - 1].HostSpecific?; }
    }
  }

  lemma {:induction false} MetaExactly(fs: FileSystem, incs: seq<Include>, host: string)
    ensures ReadMeta(fs, incs, host).Some? <==>
            HostsAllowed(incs, host) && forall i :: i in incs ==> i.HostSpecific? || !Throws(fs, i, "")
  {
    hide HostsAllowed;
    if incs == [] {
      assert HostsAllowed(incs, host) by { NoHosts(host); }
    } else {
      assert incs == [incs[0]] + incs[1..];
      HostsStep(incs[0], incs[1..], host);
      MetaExactly(fs, incs[1..], HostAfter(incs[0], host));
    }
  }

  lemma NoHosts(host: string)
    ensures HostsAllowed([], host)
  {
  }

  /** The host file is the one that is named, if one is. */
  lemma {:induction false} HostIsNamed(fs: FileSystem, incs: seq<Include>, host: string)
    requires ReadMeta(fs, incs, host).Some?
    ensures (forall i :: i in incs ==> !i.HostSpecific?) ==> ReadMeta(fs, incs, host) == Some(host)
    ensures host != "" ==> ReadMeta(fs, incs, host) == Some(host)
    ensures forall f :: HostSpecific(f) in incs && f != "" ==> ReadMeta(fs, incs, host) == Some(f)
  {
    if incs != [] {
      HostIsNamed(fs, incs[1..], HostAfter(incs[0], host));
    }
  }

  lemma {:induction false} ReadMetaConcat(fs: FileSystem, a: seq<Include>, b: seq<Include>, host: string)
    ensures ReadMeta(fs, a + b, host) ==
            var h := ReadMeta(fs, a, host); if h.None? then None else ReadMeta(fs, b, h.value)
  {
    if a == [] {
      assert a + b == b;
    } else {
      assert (a + b)[0] == a[0] && (a + b)[1..] == a[1..] + b;
      ReadMetaConcat(fs, a[1..], b, HostAfter(a[0], host));
    }
  }

  /** Where a meta document throws, the host file is the one that was named before. */
  lemma {:induction false} MetaHostReached(fs: FileSystem, incs: seq<Include>, host: string) returns (n: nat)
    ensures n <= |incs| && ReadMeta(fs, incs[..n], host) == Some(MetaHost(fs, incs, host))
    ensures n < |incs| ==> ReadMeta(fs, incs[..n + 1], host).None?
  {
    n := 0;
    if incs != [] {
      assert incs[..1][0] == incs[0];
      if !Throws(fs, incs[0], host) {
        n := MetaHostReached(fs, incs[1..], HostAfter(incs[0], host));
        assert incs[..n + 1][1..] == incs[1..][..n];
        if n < |incs| - 1 { assert incs[..n + 2][1..] == incs[1..][..n + 1]; }
        n := n + 1;
      }
    }
  }

  ghost predicate EntriesReadable(fs: FileSystem, q: seq<QueueEntry>) {
    forall e :: e in q && !e.isDir ==> FileReadable(fs, e.file, e.ignoreMissing)
  }

  /** The documents of the files can be made into trees. */
  ghost predicate TreesMade(fs: FileSystem, names: seq<string>) {
    forall n :: n in names ==> (ConfigOf(fs, n).Some? ==> TreeOf(fs, n).Some?)
  }

  /** One round of the loop gets through exactly if the file can be read, made into a tree and overlaid. */
  lemma EntryExactly(fs: FileSystem, e: QueueEntry, l: Loading)
    requires !e.isDir
    ensures var t, host := TreeOf(fs, e.file), ReadMeta(fs, IncludesOf(fs, e.file), l.host);
            && (LoadEntry(fs, e, l).Some? <==>
               && FileReadable(fs, e.file, e.ignoreMissing) && host.Some?
               && (ConfigOf(fs, e.file).Some? ==> t.Some? && MergeInto(l.root, t.value).ok))
            && (LoadEntry(fs, e, l).Some? ==>
               && LoadEntry(fs, e, l).value.host == host.value
               && LoadEntry(fs, e, l).value.root == if t.Some? then MergeInto(l.root, t.value).tree else l.root)
  {
    hide Create, MergeInto, ReadMeta;
  }

  lemma NamesStep(fs: FileSystem, q: seq<QueueEntry>)
    requires q != [] && !q[0].isDir
    ensures Names(q)[0] == q[0].file && Names(q)[1..] == Names(q[1..])
    ensures AllIncludes(fs, Names(q)) == IncludesOf(fs, q[0].file) + AllIncludes(fs, Names(q[1..]))
    ensures Trees(fs, Names(q)) ==
            (if TreeOf(fs, q[0].file).Some? then [TreeOf(fs, q[0].file).value] else []) + Trees(fs, Names(q[1..]))
  {
    hide TreeOf, IncludesOf;
  }

  lemma ReadableStep(fs: FileSystem, q: seq<QueueEntry>)
    requires q != []
    ensures EntriesReadable(fs, q) <==>
            EntriesReadable(fs, q[1..]) && (q[0].isDir || FileReadable(fs, q[0].file, q[0].ignoreMissing))
    ensures q[0].isDir ==> Names(q) == Names(q[1..])
    ensures !q[0].isDir ==>
            (TreesMade(fs, Names(q)) <==>
            TreesMade(fs, Names(q[1..])) && (ConfigOf(fs, q[0].file).Some? ==> TreeOf(fs, q[0].file).Some?))
  {
    hide TreeOf, ConfigOf;
    assert q == [q[0]] + q[1..];
  }

  lemma OverlaysStep(root: Tree, d: seq<Tree>, ds: seq<Tree>)
    requires |d| <= 1
    ensures OverlaysOk(root, d + ds) <==>
            if d == [] then OverlaysOk(root, ds)
            else MergeInto(root, d[0]).ok && OverlaysOk(MergeInto(root, d[0]).tree, ds)
  {
    hide MergeInto;
    if d == [] {
      assert d + ds == ds;
    } else {
      assert (d + ds)[0] == d[0] && (d + ds)[1..] == ds;
    }
  }

  /** The loop gets through its entries exactly if all can be read, made into trees and overlaid. */
  lemma {:induction false} LoadSeqExactly(fs: FileSystem, q: seq<QueueEntry>, l: Loading)
    ensures LoadSeq(fs, q, l).Some? <==>
            && EntriesReadable(fs, q) && TreesMade(fs, Names(q))
            && ReadMeta(fs, AllIncludes(fs, Names(q)), l.host).Some? && OverlaysOk(l.root, Trees(fs, Names(q)))
    ensures LoadSeq(fs, q, l).Some? ==>
            Some(LoadSeq(fs, q, l).value.host) == ReadMeta(fs, AllIncludes(fs, Names(q)), l.host)
    decreases q, 1
  {
    if q != [] {
      hide Create, MergeInto, ConfigOf, TreeOf, Names, ReadMeta, AllIncludes, FileReadable, EntriesReadable, TreesMade,
           OverlaysOk, Trees, IncludesOf;
      var e, rest := q[0], q[1..];
      ReadableStep(fs, q);
      if e.isDir {
        LoadSeqExactly(fs, rest, l.(dirs := l.dirs + [e.file]));
      } else {
        EntryStep(fs, q, l);
      }
    }
  }

  lemma {:induction false} EntryStep(fs: FileSystem, q: seq<QueueEntry>, l: Loading)
    requires q != [] && !q[0].isDir
    ensures LoadSeq(fs, q, l).Some? <==>
            && EntriesReadable(fs, q) && TreesMade(fs, Names(q))
            && ReadMeta(fs, AllIncludes(fs, Names(q)), l.host).Some? && OverlaysOk(l.root, Trees(fs, Names(q)))
    ensures LoadSeq(fs, q, l).Some? ==>
            Some(LoadSeq(fs, q, l).value.host) == ReadMeta(fs, AllIncludes(fs, Names(q)), l.host)
    decreases q, 0
  {
    hide Create, MergeInto, ConfigOf, TreeOf, Names, ReadMeta, AllIncludes, FileReadable, EntriesReadable, TreesMade,
         OverlaysOk, Trees, IncludesOf, LoadEntry;
    var e, rest := q[0], q[1..];
    ReadableStep(fs, q);
    EntryExactly(fs, e, l);
    NamesStep(fs, q);
    ReadMetaConcat(fs, IncludesOf(fs, e.file), AllIncludes(fs, Names(rest)), l.host);
    var t := TreeOf(fs, e.file);
    OverlaysStep(l.root, if t.Some? then [t.value] else [], Trees(fs, Names(rest)));
    if LoadEntry(fs, e, l).Some? { LoadSeqExactly(fs, rest, LoadEntry(fs, e, l).value); }
    NoTree(fs, e.file);
  }

  lemma NoTree(fs: FileSystem, name: string)
    ensures ConfigOf(fs, name).None? ==> TreeOf(fs, name).None?
  {
  }

  /** The files that an include asks for can be read. */
  ghost predicate TargetsReadable(fs: FileSystem, i: Include) {
    EntriesReadable(fs, Pushed(fs, i))
  }

  lemma {:induction false} ReadableConcat(fs: FileSystem, q: seq<QueueEntry>, r: seq<QueueEntry>)
    ensures EntriesReadable(fs, q + r) <==> EntriesReadable(fs, q) && EntriesReadable(fs, r)
  {
    hide FileReadable;
    assert forall e :: e in q ==> e in q + r;
    assert forall e :: e in r ==> e in q + r;
  }

  lemma NoEntries(fs: FileSystem)
    ensures EntriesReadable(fs, [])
  {
  }

  lemma TargetsOfOne(fs: FileSystem, i: Include)
    ensures TargetsReadable(fs, i) <==> EntriesReadable(fs, Pushed(fs, i))
  {
  }

  lemma {:induction false} PushedReadable(fs: FileSystem, incs: seq<Include>)
    ensures EntriesReadable(fs, PushedAll(fs, incs)) <==> forall i :: i in incs ==> TargetsReadable(fs, i)
  {
    hide EntriesReadable, Pushed, TargetsReadable;
    if incs == [] {
      NoEntries(fs);
    } else {
      assert forall i :: i in incs <==> i == incs[0] || i in incs[1..];
      TargetsOfOne(fs, incs[0]);
      PushedReadable(fs, incs[1..]);
      ReadableConcat(fs, Pushed(fs, incs[0]), PushedAll(fs, incs[1..]));
    }
  }

  lemma {:induction false} NextReadable(fs: FileSystem, q: seq<QueueEntry>)
    ensures EntriesReadable(fs, NextAll(fs, q)) <==>
            forall i :: i in AllIncludes(fs, Names(q)) ==> TargetsReadable(fs, i)
  {
    if q != [] {
      hide EntriesReadable, Pushed, TargetsReadable;
      var e, rest := q[0], q[1..];
      NextReadable(fs, rest);
      PushedReadable(fs, Includes(fs, e));
      if e.isDir {
        NoNextOfDir(fs, e);
        ConcatEmpty(NextAll(fs, rest));
        ConcatEmpty(Names(rest));
      } else {
        ReadableConcat(fs, Next(fs, e), NextAll(fs, rest));
        NamesStep(fs, q);
      }
    }
  }

  lemma {:induction false} IncludesConcat(fs: FileSystem, a: seq<string>, b: seq<string>)
    ensures AllIncludes(fs, a + b) == AllIncludes(fs, a) + AllIncludes(fs, b)
  {
    hide IncludesOf;
    if a == [] {
      assert a + b == b;
    } else {
      assert (a + b)[0] == a[0] && (a + b)[1..] == a[1..] + b;
      IncludesConcat(fs, a[1..], b);
    }
  }

  /** All entries of the load can be read exactly if the first ones can, and all that is included. */
  lemma {:induction false} LevelsReadable(fs: FileSystem, rank: string -> nat, q: seq<QueueEntry>, b: nat)
    requires Acyclic(fs, rank) && RanksBelow(q, rank, b)
    ensures EntriesReadable(fs, BreadthFirst(fs, rank, q, b)) <==>
            && EntriesReadable(fs, q)
            && forall i :: i in AllIncludes(fs, Names(BreadthFirst(fs, rank, q, b))) ==> TargetsReadable(fs, i)
    decreases SizeAll(fs, rank, q, b)
  {
    if q != [] {
      hide Acyclic, RanksBelow, EntriesReadable, TargetsReadable, Names, NextAll;
      NextAllShrinks(fs, rank, q, b);
      var more := BreadthFirst(fs, rank, NextAll(fs, q), b);
      LevelsReadable(fs, rank, NextAll(fs, q), b);
      ReadableConcat(fs, q, more);
      NextReadable(fs, q);
      NamesConcat(q, more);
      IncludesConcat(fs, Names(q), Names(more));
    }
  }

  lemma IncludeReadableParts(fs: FileSystem, i: Include)
    ensures IncludeReadable(fs, i) <==> TargetsReadable(fs, i) && (i.HostSpecific? || !Throws(fs, i, ""))
  {
    match i
    case HostSpecific(_) =>
    case InvalidInclude =>
    case IncludeFile(file, ignoreMissing) =>
      assert QueueEntry(file, ignoreMissing, false) in Pushed(fs, i);
    case IncludeDir(dir, ignoreMissing) =>
      if dir in fs.dirs {
        var es := DirEntries(fs.dirs[dir], ignoreMissing);
        forall n | n in fs.dirs[dir] ensures QueueEntry(n, ignoreMissing, false) in Pushed(fs, i) {
          var k :| 0 <= k < |fs.dirs[dir]| && fs.dirs[dir][k] == n;
          assert es[k] == QueueEntry(n, ignoreMissing, false);
        }
      }
  }

  /** The loading loop succeeds exactly if the first file is there and can be parsed, all that any file includes can be
      read, at most one host file is named, and all documents can be made into trees and overlaid in their order. */
  lemma LoopExactly(fs: FileSystem, rank: string -> nat, file: string)
    requires Acyclic(fs, rank)
    ensures var order := Order(fs, rank, file);
            var l := Load(fs, rank, [QueueEntry(file, false, false)], rank(file) + 1, START);
            && (l.Some? <==>
               && FileReadable(fs, file, false)
               && (forall i :: i in AllIncludes(fs, order) ==> IncludeReadable(fs, i))
               && HostsAllowed(AllIncludes(fs, order), "")
               && TreesMade(fs, order) && OverlaysOk(NewRoot(), Trees(fs, order)))
            && (l.Some? ==>
               && ((forall i :: i in AllIncludes(fs, order) ==> !i.HostSpecific?) ==> l.value.host == "")
               && (forall f :: HostSpecific(f) in AllIncludes(fs, order) && f != "" ==> l.value.host == f))
  {
    hide Acyclic, Load, Order, BreadthFirst, EntriesReadable, FileReadable, IncludeReadable, TargetsReadable, Throws,
         HostsAllowed, TreesMade, OverlaysOk, Trees, LoadSeq, Names, AllIncludes, ReadMeta;
    var q, b := [QueueEntry(file, false, false)], rank(file) + 1;
    var bf, incs := BreadthFirst(fs, rank, q, b), AllIncludes(fs, Order(fs, rank, file));
    OrderIsLoaded(fs, rank, file);
    LoadIsBreadthFirst(fs, rank, q, b, START);
    LoadSeqExactly(fs, bf, START);
    LevelsReadable(fs, rank, q, b);
    FirstReadable(fs, file);
    MetaExactly(fs, incs, "");
    forall i | i in incs
      ensures IncludeReadable(fs, i) <==> TargetsReadable(fs, i) && (i.HostSpecific? || !Throws(fs, i, "")) {
      IncludeReadableParts(fs, i);
    }
    if ReadMeta(fs, incs, "").Some? { HostIsNamed(fs, incs, ""); }
  }

  lemma FirstReadable(fs: FileSystem, file: string)
    ensures EntriesReadable(fs, [QueueEntry(file, false, false)]) <==> FileReadable(fs, file, false)
  {
    var q := [QueueEntry(file, false, false)];
    assert q[0] in q;
  }

  /** Documents that fit together can all be overlaid. */
  lemma {:induction false} HarmoniousOverlays(ds: seq<Tree>, i: nat)
    requires Harmonious(ds) && i <= |ds|
    ensures OverlaysOk(OverlayAll(NewRoot(), ds[..i]), ds[i..])
    decreases |ds| - i
  {
    hide Harmonious, MergeInto, Compatible, Merged, OverlayAll;
    if i < |ds| {
      var a, d := OverlayAll(NewRoot(), ds[..i]), ds[i];
      HarmoniousAt(ds, i);
      OverlayAllCompatible(ds, i, d);
      MergeIsOverlay(a, d);
      HarmoniousOverlays(ds, i + 1);
      TakeSnoc(ds, i);
      OverlayAllSnoc(NewRoot(), ds[..i], d);
      assert ds[i..][0] == d && ds[i..][1..] == ds[i + 1..];
    }
  }

  lemma HarmoniousAt(ds: seq<Tree>, i: nat)
    requires Harmonious(ds) && i < |ds|
    ensures Mergeable(ds[i]) && ds[i].name == "root" && forall j :: 0 <= j < |ds| ==> AgreeBelow(ds[j], ds[i])
  {
    assert ds[i] in ds;
  }

  /** The host file may be missing or empty; it must not include anything but directories that are missing and may be,
      and its document must fit the rest. */
  lemma HostExactly(fs: FileSystem, l: Loading)
    ensures var incs, t := IncludesOf(fs, l.host), TreeOf(fs, l.host);
            LoadHost(fs, l).Some? <==>
            || l.host == ""
            || (&& FileReadable(fs, l.host, true)
               && (forall i :: i in incs ==>
                  i.IncludeDir? && i.dir !in fs.dirs && i.dir !in fs.files && i.ignoreMissing)
               && (ConfigOf(fs, l.host).Some? ==> t.Some? && MergeInto(l.root, t.value).ok))
  {
    hide Create, MergeInto, ReadMeta, HostsAllowed, PushedAll, ConfigOf;
    if l.host != "" {
      var incs := IncludesOf(fs, l.host);
      MetaExactly(fs, incs, l.host);
      NoHostInHost(incs, l.host);
      NothingPushed(fs, incs);
      assert Includes(fs, HostEntry(l.host)) == incs;
    }
  }

  lemma NoHostInHost(incs: seq<Include>, host: string)
    requires host != ""
    ensures HostsAllowed(incs, host) <==> forall i :: i in incs ==> !i.HostSpecific?
  {
  }

  lemma {:induction false} NothingPushed(fs: FileSystem, incs: seq<Include>)
    ensures PushedAll(fs, incs) == [] <==> forall i :: i in incs ==> Pushed(fs, i) == []
  {
    hide Pushed;
    if incs != [] {
      assert incs == [incs[0]] + incs[1..];
      var a, b := Pushed(fs, incs[0]), PushedAll(fs, incs[1..]);
      NothingPushed(fs, incs[1..]);
      assert PushedAll(fs, incs) == a + b && |a + b| == |a| + |b|;
    }
  }
}
