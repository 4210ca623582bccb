/** Loading a configuration: the load queue of read_yaml_config, read_yaml_file and read_meta_doc
    (src/libs/config/yaml.cpp) over files that are already parsed, and what it computes. */
module ConfigLoad {
  import opened Paths
  import opened ScalarText
  import opened ConfigTree
  import opened ConfigMerge
  import opened OverlayLaws
  import opened ConfigDoc
  import opened MapFacts

  /** One entry of the include list of a meta document, with absolute file names. */
  datatype Include =
    | HostSpecific(file: string)
    | IncludeFile(file: string, ignoreMissing: bool)
    | IncludeDir(dir: string, ignoreMissing: bool)
    | InvalidInclude

  /** What reading a file gives: a parse error, no document, a configuration document alone, or a meta
      document with a configuration document. */
  datatype Content = Broken | NoDocument | ConfigOnly(config: Doc) | WithMeta(includes: seq<Include>, config: Doc)

  /** The readable files, and for every directory its matching files in sorted order. */
  datatype FileSystem = FileSystem(files: map<string, Content>, dirs: map<string, seq<string>>)

  datatype QueueEntry = QueueEntry(file: string, ignoreMissing: bool, isDir: bool)

  // ---- read_meta_doc ----

  function DirEntries(names: seq<string>, ignoreMissing: bool): seq<QueueEntry> {
    seq(|names|, i requires 0 <= i < |names| => QueueEntry(names[i], ignoreMissing, false))
  }

  /** What one include pushes on the load queue. */
  function Pushed(fs: FileSystem, i: Include): seq<QueueEntry> {
    match i
    case IncludeFile(file, ignoreMissing) => [QueueEntry(file, ignoreMissing, false)]
    case IncludeDir(dir, ignoreMissing) =>
      if dir in fs.dirs then [QueueEntry(dir, ignoreMissing, true)] + DirEntries(fs.dirs[dir], ignoreMissing) else []
    case _ => []
  }

  function PushedAll(fs: FileSystem, incs: seq<Include>): seq<QueueEntry> {
    if incs == [] then [] else Pushed(fs, incs[0]) + PushedAll(fs, incs[1..])
  }

  /** Whether an include makes the reader throw, given the host file found so far. */
  predicate Throws(fs: FileSystem, i: Include, host: string) {
    match i
    case HostSpecific(_) => host != ""
    case IncludeFile(_, _) => false
    case IncludeDir(dir, ignoreMissing) => dir !in fs.dirs && (dir in fs.files || !ignoreMissing)
    case InvalidInclude => true
  }

  function HostAfter(i: Include, host: string): string {
    if i.HostSpecific? then i.file else host
  }

  /** The host file name after reading a meta document, or None if it throws. */
  function ReadMeta(fs: FileSystem, incs: seq<Include>, host: string): Option<string> {
    if incs == [] then Some(host)
    else if Throws(fs, incs[0], host) then None
    else ReadMeta(fs, incs[1..], HostAfter(incs[0], host))
  }

  // ---- read_yaml_file ----

  function Includes(fs: FileSystem, e: QueueEntry): seq<Include> {
    if !e.isDir && e.file in fs.files && fs.files[e.file].WithMeta? then fs.files[e.file].includes else []
  }

  /** What reading a queue entry pushes on the queue. */
  function Next(fs: FileSystem, e: QueueEntry): seq<QueueEntry> {
    PushedAll(fs, Includes(fs, e))
  }

  /** The configuration document of a file, if it has one. */
  function ConfigOf(fs: FileSystem, file: string): Option<Doc> {
    if file !in fs.files then None
    else
      match fs.files[file]
      case ConfigOnly(config) => Some(config)
      case WithMeta(_, config) => Some(config)
      case _ => None
  }

  /** read_yaml_file throws before it builds a tree. */
  predicate Unreadable(fs: FileSystem, e: QueueEntry) {
    if e.file in fs.files then fs.files[e.file].Broken? else !e.ignoreMissing
  }

  // ---- read_yaml_config ----

  /** The state of the loading loop besides its queue. */
  datatype Loading = Loading(root: Tree, host: string, files: seq<string>, dirs: seq<string>)

  /** One round of the loop, or None if it throws. */
  function LoadEntry(fs: FileSystem, e: QueueEntry, l: Loading): Option<Loading> {
    if e.isDir then Some(l.(dirs := l.dirs + [e.file]))
    else if Unreadable(fs, e) then None
    else
      var host := ReadMeta(fs, Includes(fs, e), l.host);
      var config := ConfigOf(fs, e.file);
      if host.None? then None
      else if config.None? then Some(l.(host := host.value))
      else
        var t := Create(config.value, "root");
        if t.None? then None
        else
          var r := MergeInto(l.root, t.value);
          if r.ok then Some(Loading(r.tree, host.value, l.files + [e.file], l.dirs)) else None
  }

  /** Includes lead to files of lower rank only, so that no file includes itself. */
  ghost predicate Acyclic(fs: FileSystem, rank: string -> nat) {
    forall e, e' :: e' in Next(fs, e) && !e'.isDir ==> rank(e'.file) < rank(e.file)
  }

  ghost predicate RanksBelow(q: seq<QueueEntry>, rank: string -> nat, n: nat) {
    forall e :: e in q && !e.isDir ==> rank(e.file) < n
  }

  /** The number of entries that an entry leads to when all includes are unfolded. */
  ghost function Size(fs: FileSystem, rank: string -> nat, e: QueueEntry): (n: nat)
    requires Acyclic(fs, rank)
    ensures n > 0
    decreases if e.isDir then 0 else rank(e.file) + 1, 0, 0
  {
    if e.isDir then 1 else 1 + SizeAll(fs, rank, Next(fs, e), rank(e.file))
  }

  ghost function SizeAll(fs: FileSystem, rank: string -> nat, q: seq<QueueEntry>, bound: nat): nat
    requires Acyclic(fs, rank) && RanksBelow(q, rank, bound)
    decreases bound, 1, |q|
  {
    if q == [] then 0 else Size(fs, rank, q[0]) + SizeAll(fs, rank, q[1..], bound)
  }

  lemma {:induction false} SizeAllBound(fs: FileSystem, rank: string -> nat, q: seq<QueueEntry>, b: nat, b': nat)
    requires Acyclic(fs, rank) && RanksBelow(q, rank, b) && RanksBelow(q, rank, b')
    ensures SizeAll(fs, rank, q, b) == SizeAll(fs, rank, q, b')
    decreases |q|
  {
    if q != [] {
      SizeAllBound(fs, rank, q[1..], b, b');
    }
  }

  lemma {:induction false} SizeAllConcat(fs: FileSystem, rank: string -> nat, q: seq<QueueEntry>, r: seq<QueueEntry>,
      b: nat)
    requires Acyclic(fs, rank) && RanksBelow(q, rank, b) && RanksBelow(r, rank, b)
    ensures RanksBelow(q + r, rank, b)
    ensures SizeAll(fs, rank, q + r, b) == SizeAll(fs, rank, q, b) + SizeAll(fs, rank, r, b)
    decreases |q|
  {
    if q == [] {
      assert q + r == r;
    } else {
      assert (q + r)[0] == q[0] && (q + r)[1..] == q[1..] + r;
      SizeAllConcat(fs, rank, q[1..], r, b);
    }
  }

  lemma NoNextOfDir(fs: FileSystem, e: QueueEntry)
    requires e.isDir
    ensures Next(fs, e) == []
  {
  }

  /** One round of the loop makes the total size of the queue smaller by one. */
  lemma QueueShrinks(fs: FileSystem, rank: string -> nat, q: seq<QueueEntry>, b: nat)
    requires Acyclic(fs, rank) && RanksBelow(q, rank, b) && q != []
    ensures RanksBelow(q[1..] + Next(fs, q[0]), rank, b)
    ensures SizeAll(fs, rank, q[1..] + Next(fs, q[0]), b) + 1 == SizeAll(fs, rank, q, b)
  {
    var e := q[0];
    assert e in q;
    if e.isDir {
      NoNextOfDir(fs, e);
      assert q[1..] + [] == q[1..];
      assert RanksBelow(q[1..], rank, b);
    } else {
      assert RanksBelow(Next(fs, e), rank, rank(e.file));
      SizeAllBound(fs, rank, Next(fs, e), rank(e.file), b);
      SizeAllConcat(fs, rank, q[1..], Next(fs, e), b);
    }
  }

  /** The loading loop. */
  ghost function Load(fs: FileSystem, rank: string -> nat, q: seq<QueueEntry>, b: nat, l: Loading): Option<Loading>
    requires Acyclic(fs, rank) && RanksBelow(q, rank, b)
    decreases SizeAll(fs, rank, q, b)
  {
    if q == [] then Some(l)
    else
      var l' := LoadEntry(fs, q[0], l);
      QueueShrinks(fs, rank, q, b);
      if l'.None? then None else Load(fs, rank, q[1..] + Next(fs, q[0]), b, l'.value)
  }

  // ---- What is left where the loop throws ----

  /** The host file name once a meta document was read as far as it goes. */
  function MetaHost(fs: FileSystem, incs: seq<Include>, host: string): string {
    if incs == [] || Throws(fs, incs[0], host) then host else MetaHost(fs, incs[1..], HostAfter(incs[0], host))
  }

  /** The host file name once a file was read as far as it goes. */
  function FileHost(fs: FileSystem, e: QueueEntry, host: string): string {
    if Unreadable(fs, e) then host else MetaHost(fs, Includes(fs, e), host)
  }

  /** The state after one round, even if that throws: an overlay that throws leaves what it has merged. */
  function EntryReached(fs: FileSystem, e: QueueEntry, l: Loading): Loading {
    if e.isDir then l.(dirs := l.dirs + [e.file])
    else
      var l' := l.(host := FileHost(fs, e, l.host));
      if Unreadable(fs, e) || ReadMeta(fs, Includes(fs, e), l.host).None? || ConfigOf(fs, e.file).None? then l'
      else
        var t := Create(ConfigOf(fs, e.file).value, "root");
        if t.None? then l' else l'.(root := MergeInto(l.root, t.value).tree, files := l.files + [e.file])
  }

  lemma {:induction false} MetaReached(fs: FileSystem, incs: seq<Include>, host: string)
    ensures ReadMeta(fs, incs, host).Some? ==> ReadMeta(fs, incs, host).value == MetaHost(fs, incs, host)
    decreases |incs|
  {
    if incs != [] {
      MetaReached(fs, incs[1..], HostAfter(incs[0], host));
    }
  }

  lemma EntryDone(fs: FileSystem, e: QueueEntry, l: Loading)
    ensures LoadEntry(fs, e, l).Some? ==> LoadEntry(fs, e, l).value == EntryReached(fs, e, l)
  {
    MetaReached(fs, Includes(fs, e), l.host);
  }

  /** The state of the loop when it ends or throws. */
  ghost function LoadReached(fs: FileSystem, rank: string -> nat, q: seq<QueueEntry>, b: nat, l: Loading): Loading
    requires Acyclic(fs, rank) && RanksBelow(q, rank, b)
    decreases SizeAll(fs, rank, q, b)
  {
    if q == [] then l
    else
      QueueShrinks(fs, rank, q, b);
      var l' := EntryReached(fs, q[0], l);
      if LoadEntry(fs, q[0], l).None? then l' else LoadReached(fs, rank, q[1..] + Next(fs, q[0]), b, l')
  }

  /** A loop that does not throw reaches its result. */
  lemma {:induction false} LoadDone(fs: FileSystem, rank: string -> nat, q: seq<QueueEntry>, b: nat, l: Loading)
    requires Acyclic(fs, rank) && RanksBelow(q, rank, b)
    ensures Load(fs, rank, q, b, l).Some? ==> Load(fs, rank, q, b, l).value == LoadReached(fs, rank, q, b, l)
    decreases SizeAll(fs, rank, q, b)
  {
    hide LoadEntry, EntryReached, Next, Acyclic;
    if q != [] {
      QueueShrinks(fs, rank, q, b);
      EntryDone(fs, q[0], l);
      LoadDone(fs, rank, q[1..] + Next(fs, q[0]), b, EntryReached(fs, q[0], l));
    }
  }

  // ---- Breadth-first order ----

  function NextAll(fs: FileSystem, q: seq<QueueEntry>): seq<QueueEntry> {
    if q == [] then [] else Next(fs, q[0]) + NextAll(fs, q[1..])
  }

  lemma {:induction false} NextAllShrinks(fs: FileSystem, rank: string -> nat, q: seq<QueueEntry>, b: nat)
    requires Acyclic(fs, rank) && RanksBelow(q, rank, b)
    ensures RanksBelow(NextAll(fs, q), rank, b)
    ensures SizeAll(fs, rank, NextAll(fs, q), b) + |q| == SizeAll(fs, rank, q, b)
    decreases |q|
  {
    if q != [] {
      NextAllShrinks(fs, rank, q[1..], b);
      QueueShrinks(fs, rank, q, b);
      var n := Next(fs, q[0]);
      assert RanksBelow(n, rank, b) by {
        forall e | e in n && !e.isDir ensures rank(e.file) < b { assert e in q[1..] + n; }
      }
      SizeAllConcat(fs, rank, q[1..], n, b);
      SizeAllConcat(fs, rank, n, NextAll(fs, q[1..]), b);
    }
  }

  /** The entries level by level: those of the queue, then all they push, then all that those push. */
  ghost function BreadthFirst(fs: FileSystem, rank: string -> nat, q: seq<QueueEntry>, b: nat): seq<QueueEntry>
    requires Acyclic(fs, rank) && RanksBelow(q, rank, b)
    decreases SizeAll(fs, rank, q, b)
  {
    if q == [] then []
    else
      NextAllShrinks(fs, rank, q, b);
      q + BreadthFirst(fs, rank, NextAll(fs, q), b)
  }

  /** The loop body applied to a fixed sequence of entries. */
  function LoadSeq(fs: FileSystem, q: seq<QueueEntry>, l: Loading): Option<Loading> {
    if q == [] then Some(l)
    else
      var l' := LoadEntry(fs, q[0], l);
      if l'.None? then None else LoadSeq(fs, q[1..], l'.value)
  }

  lemma {:induction false} LoadSeqConcat(fs: FileSystem, q: seq<QueueEntry>, r: seq<QueueEntry>, l: Loading)
    ensures LoadSeq(fs, q + r, l) == var m := LoadSeq(fs, q, l); if m.None? then None else LoadSeq(fs, r, m.value)
  {
    if q == [] {
      assert q + r == r;
    } else {
      assert (q + r)[0] == q[0] && (q + r)[1..] == q[1..] + r;
      var l' := LoadEntry(fs, q[0], l);
      if l'.Some? {
        LoadSeqConcat(fs, q[1..], r, l'.value);
      }
    }
  }

  /** Working off the front part of a queue appends what that part leads to. */
  lemma {:induction false} LoadFront(fs: FileSystem, rank: string -> nat, q: seq<QueueEntry>, r: seq<QueueEntry>,
      b: nat, l: Loading)
    requires Acyclic(fs, rank) && RanksBelow(q + r, rank, b)
    ensures RanksBelow(r + NextAll(fs, q), rank, b)
    ensures Load(fs, rank, q + r, b, l) ==
            var m := LoadSeq(fs, q, l); if m.None? then None else Load(fs, rank, r + NextAll(fs, q), b, m.value)
    decreases |q|
  {
    if q == [] {
      assert q + r == r && r + NextAll(fs, q) == r;
    } else {
      var n := Next(fs, q[0]);
      ConcatTail(q, r, n, NextAll(fs, q[1..]));
      QueueShrinks(fs, rank, q + r, b);
      var l' := LoadEntry(fs, q[0], l);
      LoadFront(fs, rank, q[1..], r + n, b, if l'.Some? then l'.value else l);
    }
  }

  /** The queue loop treats the entries in breadth-first order. */
  lemma {:induction false} LoadIsBreadthFirst(fs: FileSystem, rank: string -> nat, q: seq<QueueEntry>, b: nat,
      l: Loading)
    requires Acyclic(fs, rank) && RanksBelow(q, rank, b)
    ensures Load(fs, rank, q, b, l) == LoadSeq(fs, BreadthFirst(fs, rank, q, b), l)
    decreases SizeAll(fs, rank, q, b)
  {
    if q != [] {
      assert q + [] == q && [] + NextAll(fs, q) == NextAll(fs, q);
      LoadFront(fs, rank, q, [], b, l);
      NextAllShrinks(fs, rank, q, b);
      LoadSeqConcat(fs, q, BreadthFirst(fs, rank, NextAll(fs, q), b), l);
      var m := LoadSeq(fs, q, l);
      if m.Some? {
        LoadIsBreadthFirst(fs, rank, NextAll(fs, q), b, m.value);
      }
    }
  }

  // ---- What the loop has put together ----

  /** The tree that reading an entry overlays, if any. */
  function DocOf(fs: FileSystem, e: QueueEntry): seq<Tree> {
    if e.isDir || ConfigOf(fs, e.file).None? then []
    else
      var t := Create(ConfigOf(fs, e.file).value, "root");
      if t.Some? then [t.value] else []
  }

  function Docs(fs: FileSystem, q: seq<QueueEntry>): seq<Tree> {
    if q == [] then [] else DocOf(fs, q[0]) + Docs(fs, q[1..])
  }

  function OverlayAll(root: Tree, ds: seq<Tree>): Tree {
    if ds == [] then root else MergeInto(OverlayAll(root, ds[..|ds| - 1]), ds[|ds| - 1]).tree
  }

  lemma {:induction false} OverlayAllCons(root: Tree, d: Tree, ds: seq<Tree>)
    ensures OverlayAll(root, [d] + ds) == OverlayAll(MergeInto(root, d).tree, ds)
    decreases |ds|
  {
    var all := [d] + ds;
    if ds == [] {
      assert all == [d] && all[..0] == [];
    } else {
      assert all[..|all| - 1] == [d] + ds[..|ds| - 1];
      OverlayAllCons(root, d, ds[..|ds| - 1]);
    }
  }

  /** The loop overlays the documents of its entries in the order in which it meets them. */
  lemma {:induction false} LoadSeqOverlays(fs: FileSystem, q: seq<QueueEntry>, l: Loading)
    ensures LoadSeq(fs, q, l).Some? ==> LoadSeq(fs, q, l).value.root == OverlayAll(l.root, Docs(fs, q))
  {
    hide Create, MergeInto, ReadMeta, Includes, ConfigOf, Unreadable;
    if q != [] {
      var l' := LoadEntry(fs, q[0], l);
      if l'.Some? {
        LoadSeqOverlays(fs, q[1..], l'.value);
        if DocOf(fs, q[0]) == [] {
          ConcatEmpty(Docs(fs, q[1..]));
        } else {
          OverlayAllCons(l.root, DocOf(fs, q[0])[0], Docs(fs, q[1..]));
        }
      }
    }
  }

  /** The value that the last document defining p gives it, unless a later one replaced a whole
      sequence of maps around p. */
  function LastValue(ds: seq<Tree>, p: Path): Option<Leaf> {
    if ds == [] then None
    else
      var d := ds[|ds| - 1];
      if p in Leafs(d) then Some(Leafs(d)[p])
      else if ReplacedBelow(d, p) then None
      else LastValue(ds[..|ds| - 1], p)
  }

  /** Documents that can be overlaid on one another in any order. */
  ghost predicate Harmonious(ds: seq<Tree>) {
    && (forall d :: d in ds ==> Mergeable(d) && d.name == "root")
    && (forall i, j :: 0 <= i < |ds| && 0 <= j < |ds| ==> AgreeBelow(ds[i], ds[j]))
  }

  lemma HarmoniousPrefix(ds: seq<Tree>)
    requires Harmonious(ds) && ds != []
    ensures Harmonious(ds[..|ds| - 1])
  {
    assert forall d :: d in ds[..|ds| - 1] ==> d in ds;
  }

  lemma {:induction false} OverlayAllCompatible(ds: seq<Tree>, i: nat, c: Tree)
    requires Harmonious(ds) && i <= |ds| && Mergeable(c) && c.name == "root"
    requires forall j :: 0 <= j < |ds| ==> AgreeBelow(ds[j], c)
    ensures Compatible(OverlayAll(NewRoot(), ds[..i]), c)
    decreases i
  {
    hide Compatible, AgreeBelow, Mergeable, MergeInto, Merged;
    if i == 0 {
      TakeAll(ds);
      NewRootCompatible(c);
    } else {
      var d := ds[i - 1];
      assert d in ds;
      OverlayAllCompatible(ds, i - 1, d);
      OverlayAllCompatible(ds, i - 1, c);
      var a := OverlayAll(NewRoot(), ds[..i - 1]);
      MergeIsOverlay(a, d);
      MergedCompatible(a, d, c);
      assert ds[..i][..i - 1] == ds[..i - 1];
    }
  }

  lemma NewRootCompatible(c: Tree)
    requires Mergeable(c) && c.name == "root"
    ensures Compatible(NewRoot(), c)
  {
  }

  /** The effective value of a path after loading harmonious documents is that of the last document
      which defines it. */
  lemma {:induction false} LastWins(ds: seq<Tree>, p: Path)
    requires Harmonious(ds) && p != []
    ensures LeafVal(OverlayAll(NewRoot(), ds), p) == LastValue(ds, p)
    decreases |ds|
  {
    if ds != [] {
      var n := |ds| - 1;
      var d, a := ds[n], OverlayAll(NewRoot(), ds[..n]);
      assert d in ds;
      HarmoniousPrefix(ds);
      LastWins(ds[..n], p);
      OverlayAllCompatible(ds, n, d);
      OverlayValue(a, d, p);
    }
  }

  lemma OverlayValue(a: Tree, d: Tree, p: Path)
    requires Compatible(a, d) && p != []
    ensures LeafVal(MergeInto(a, d).tree, p) ==
            if p in Leafs(d) then Some(Leafs(d)[p]) else if ReplacedBelow(d, p) then None else LeafVal(a, p)
  {
    hide Compatible;
    MergeIsOverlay(a, d);
    LeafsVal(a, p);
    LeafsVal(MergeInto(a, d).tree, p);
  }
}
