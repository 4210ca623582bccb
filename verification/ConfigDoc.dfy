/** Building configuration trees from parsed YAML documents and writing them out again: create,
    set_map, set_sequence and emit of YamlConfigurationNode (src/libs/config/yaml_node.h). */
module ConfigDoc {
  import opened Paths
  import opened ScalarText
  import opened ConfigTree
  import opened ConfigMerge

  /** YAML::Node after parsing. */
  datatype Doc = NullDoc | ScalarDoc(text: string) | SequenceDoc(items: seq<Doc>) | MapDoc(entries: seq<Entry>)

  datatype Entry = Entry(key: string, value: Doc)

  /** The keys that one key of a document stands for: a key with slashes is a path. */
  function KeyPath(key: string): Path {
    if '/' in key then Split(key) else [key]
  }

  /** Keys that name something; str_split leaves nothing of a key made of slashes only. */
  ghost predicate WellKeyed(doc: Doc) {
    match doc
    case NullDoc => true
    case ScalarDoc(_) => true
    case SequenceDoc(items) => forall d :: d in items ==> WellKeyed(d)
    case MapDoc(entries) => forall e :: e in entries ==> KeyPath(e.key) != [] && WellKeyed(e.value)
  }

  /** create: the tree of a document, or None where the source throws. */
  function Create(doc: Doc, name: string): Option<Tree>
    decreases doc, 1
  {
    match doc
    case NullDoc => Some(NewNode(name))
    case ScalarDoc(text) => Some(SetScalar(NewNode(name), text))
    case SequenceDoc(items) => SetSequence(NewNode(name), items)
    case MapDoc(entries) => SetMap(NewNode(name).(kind := MAP), entries)
  }

  /** set_sequence: a list of texts, or numbered children if the first item is a map. */
  function SetSequence(t: Tree, items: seq<Doc>): Option<Tree>
    decreases items, 0
  {
    var blank := seq(|items|, _ => "");
    if items == [] then Some(SetList(t, []))
    else if items[0].ScalarDoc? then
      if forall d :: d in items ==> d.ScalarDoc? then
        Some(SetList(t, seq(|items|, i requires 0 <= i < |items| => if items[i].ScalarDoc? then items[i].text else "")))
      else None
    else if items[0].MapDoc? then Numbered(SetList(t, blank).(kind := SEQUENCE_MAP), items, 0)
    else None
  }

  /** The children named after the positions of the items from i on. */
  function Numbered(t: Tree, items: seq<Doc>, i: nat): Option<Tree>
    requires i <= |items|
    decreases items, 0, |items| - i
  {
    if i == |items| then Some(t)
    else
      var c := Create(items[i], PrintNat(i));
      if c.None? then None else Numbered(AddChild(t, PrintNat(i), c.value), items, i + 1)
  }

  /** set_map */
  function SetMap(t: Tree, entries: seq<Entry>): Option<Tree>
    decreases entries, 0
  {
    if entries == [] then Some(t)
    else
      var t' := SetEntry(t, entries[0].key, Create(entries[0].value, EntryName(entries[0].key)));
      if t'.None? then None else SetMap(t'.value, entries[1..])
  }

  /** The last key of the path that a key stands for. */
  function EntryName(key: string): string {
    var p := KeyPath(key);
    if p == [] then "" else p[|p| - 1]
  }

  /** One round of set_map with the tree made of the value. The type check of an update looks at the
      children of the map node itself, also for a key that leads deeper. */
  function SetEntry(t: Tree, key: string, value: Option<Tree>): Option<Tree> {
    var p := KeyPath(key);
    if p == [] then None
    else
      var dir, k := p[..|p| - 1], p[|p| - 1];
      var t1 := FindOrInsert(t, dir);
      if value.None? || (k in t1.kids && value.value.kind != t1.kids[k].kind) then None
      else Some(Graft(t1, dir, AddChild(Lookup(t1, dir).value, k, value.value)))
  }

  // ---- emit ----

  /** The map structure that emit writes for a node with children. */
  function EmitMap(t: Tree): Doc {
    MapDoc(EmitEntries(t, SortedKeys(t.kids.Keys)))
  }

  function EmitEntries(t: Tree, ks: seq<string>): seq<Entry>
    requires forall k :: k in ks ==> k in t.kids
    decreases t, 0, |ks|
  {
    if ks == [] then []
    else [Entry(ks[0], EmitValue(t.kids[ks[0]]))] + EmitEntries(t, ks[1..])
  }

  /** The loop of emit has written the first i children; going on from there gives goal. */
  ghost predicate EmittedTo(t: Tree, ks: seq<string>, i: nat, done: seq<Entry>, goal: seq<Entry>) {
    i <= |ks| && (forall k :: k in ks ==> k in t.kids) && goal == done + EmitEntries(t, ks[i..])
  }

  lemma EmitStart(t: Tree, ks: seq<string>)
    requires forall k :: k in ks ==> k in t.kids
    ensures EmittedTo(t, ks, 0, [], EmitEntries(t, ks))
  {
    assert ks[0..] == ks && [] + EmitEntries(t, ks) == EmitEntries(t, ks);
  }

  lemma EmitStep(t: Tree, ks: seq<string>, i: nat, done: seq<Entry>, goal: seq<Entry>)
    requires i < |ks| && EmittedTo(t, ks, i, done, goal)
    ensures ks[i] in t.kids && EmittedTo(t, ks, i + 1, done + [Entry(ks[i], EmitValue(t.kids[ks[i]]))], goal)
  {
    var rest := EmitEntries(t, ks[i + 1..]);
    var e := Entry(ks[i], EmitValue(t.kids[ks[i]]));
    assert ks[i..][0] == ks[i] && ks[i..][1..] == ks[i + 1..];
    assert done + ([e] + rest) == done + [e] + rest;
  }

  lemma EmitEnd(t: Tree, ks: seq<string>, done: seq<Entry>, goal: seq<Entry>)
    requires EmittedTo(t, ks, |ks|, done, goal)
    ensures goal == done
  {
    assert done + [] == done;
  }

  function EmitValue(c: Tree): Doc
    decreases c, 1
  {
    if HasKids(c) then MapDoc(EmitEntries(c, SortedKeys(c.kids.Keys))) else ScalarDoc(c.scalar)
  }

  /** What emit writes to the file: nothing at all for a tree without children. */
  function Emit(t: Tree): Option<Doc> {
    if HasKids(t) then Some(EmitMap(t)) else None
  }

  /** Reading a file with at most one document, as done for the host file. */
  function Reread(file: Option<Doc>): Option<Tree> {
    if file.None? then Some(NewRoot()) else Create(file.value, "root")
  }

  // ---- The trees that documents give ----

  /** Keys made of proper path elements, none of them "root". */
  ghost predicate ProperKeys(doc: Doc) {
    match doc
    case NullDoc => true
    case ScalarDoc(_) => true
    case SequenceDoc(items) => forall d :: d in items ==> ProperKeys(d)
    case MapDoc(entries) => forall e :: e in entries ==>
        ProperPath(KeyPath(e.key)) && KeyPath(e.key) != [] && ProperKeys(e.value)
  }

  predicate ProperPath(p: Path) {
    IsPath(p) && "root" !in p
  }

  ghost predicate MergeableKids(t: Tree) {
    forall k :: k in t.kids ==> t.kids[k].name == k && IsKey(k) && k != "root" && Mergeable(t.kids[k])
  }

  lemma MergeableTop(t: Tree)
    ensures Mergeable(t) ==> MergeableKids(t)
    ensures MergeableKids(t) && ShapedTop(t) ==> Mergeable(t)
  {
  }

  /** The part of Shaped that concerns the node itself. */
  predicate ShapedTop(t: Tree) {
    && (IsScalarKind(t.kind) ==> t.kind == ScalarKind(t.scalar))
    && (!IsContainer(t.kind) ==> !HasKids(t))
    && (t.kind == SEQUENCE_MAP ==> HasKids(t))
    && (IsContainer(t.kind) && !HasKids(t) ==> t.scalar == "")
  }

  lemma AddChildMergeable(t: Tree, k: string, c: Tree)
    requires MergeableKids(t) && Mergeable(c) && c.name == k && IsKey(k) && k != "root"
    ensures Mergeable(AddChild(t, k, c))
  {
    hide Mergeable, ScalarKind, IsKey;
    MergeableTop(AddChild(t, k, c));
  }

  lemma ReplaceKidMergeable(t: Tree, k: string, c: Tree)
    requires Mergeable(t) && k in t.kids && Mergeable(c) && c.name == k
    ensures Mergeable(t.(kids := t.kids[k := c]))
  {
    hide Mergeable, ScalarKind, IsKey;
    MergeableTop(t);
    MergeableTop(t.(kids := t.kids[k := c]));
    ShapedTopKids(t, k, c);
  }

  lemma ShapedTopKids(t: Tree, k: string, c: Tree)
    requires Mergeable(t) && k in t.kids
    ensures ShapedTop(t.(kids := t.kids[k := c]))
  {
    assert k in t.(kids := t.kids[k := c]).kids;
  }

  lemma {:induction false} GraftMergeable(t: Tree, p: Path, s: Tree)
    requires Mergeable(t) && Exists(t, p) && Mergeable(s) && s.name == Lookup(t, p).value.name
    ensures Mergeable(Graft(t, p, s)) && Graft(t, p, s).name == t.name
    ensures p != [] ==> Graft(t, p, s).kind == t.kind
    decreases p
  {
    hide Mergeable;
    if p != [] {
      MergeableKid(t, p[0]);
      GraftMergeable(t.kids[p[0]], p[1..], s);
      ReplaceKidMergeable(t, p[0], Graft(t.kids[p[0]], p[1..], s));
    }
  }

  lemma {:induction false} InsertMergeable(t: Tree, p: Path)
    requires Mergeable(t) && ProperPath(p)
    ensures Mergeable(FindOrInsert(t, p)) && FindOrInsert(t, p).name == t.name
    ensures IsMapLike(t.kind) ==> IsMapLike(FindOrInsert(t, p).kind)
    decreases p
  {
    hide Mergeable, IsKey;
    if p != [] {
      var t' := InsertChild(t, p[0]);
      InsertChildMergeable(t, p[0]);
      MergeableKid(t', p[0]);
      ProperRest(p);
      InsertMergeable(t'.kids[p[0]], p[1..]);
      ReplaceKidMergeable(t', p[0], FindOrInsert(t'.kids[p[0]], p[1..]));
    }
  }

  lemma InsertChildMergeable(t: Tree, k: string)
    requires Mergeable(t) && IsKey(k) && k != "root"
    ensures Mergeable(InsertChild(t, k))
  {
    hide Mergeable, IsKey;
    NewNodeMergeable(k);
    MergeableTop(t);
    if k !in t.kids {
      AddChildMergeable(t, k, NewNode(k));
    }
  }

  lemma ProperRest(p: Path)
    requires ProperPath(p) && p != []
    ensures ProperPath(p[1..]) && IsKey(p[0]) && p[0] != "root"
  {
  }

  lemma NewNodeMergeable(name: string)
    ensures Mergeable(NewNode(name))
  {
  }

  lemma ProperPrefix(p: Path, i: nat)
    requires ProperPath(p) && i <= |p|
    ensures ProperPath(p[..i])
  {
  }

  lemma SetEntryMergeable(t: Tree, key: string, c: Tree)
    requires Mergeable(t) && IsMapLike(t.kind) && ProperPath(KeyPath(key)) && KeyPath(key) != []
    requires Mergeable(c) && c.name == EntryName(key)
    ensures var r := SetEntry(t, key, Some(c));
            r.Some? ==> Mergeable(r.value) && IsMapLike(r.value.kind) && r.value.name == t.name
  {
    hide Mergeable, ScalarKind, KeyPath;
    var p := KeyPath(key);
    var dir, k := p[..|p| - 1], p[|p| - 1];
    ProperPrefix(p, |p| - 1);
    InsertMergeable(t, dir);
    var t1 := FindOrInsert(t, dir);
    LookupMergeable(t1, dir);
    var n := Lookup(t1, dir).value;
    MergeableTop(n);
    AddChildMergeable(n, k, c);
    GraftMergeable(t1, dir, AddChild(n, k, c));
  }

  lemma {:induction false} LookupMergeable(t: Tree, p: Path)
    requires Mergeable(t) && Exists(t, p)
    ensures Mergeable(Lookup(t, p).value)
    decreases p
  {
    if p != [] {
      MergeableTop(t);
      LookupMergeable(t.kids[p[0]], p[1..]);
    }
  }

  /** Every document with proper keys gives a tree whose nodes carry their own keys as names, none of
      them "root", and whose kinds fit the contents. */
  lemma {:induction false} CreateMergeable(doc: Doc, name: string)
    requires ProperKeys(doc)
    ensures Create(doc, name).Some? ==> Mergeable(Create(doc, name).value) && Create(doc, name).value.name == name
    decreases doc, 1
  {
    match doc
    case NullDoc =>
    case ScalarDoc(text) =>
    case SequenceDoc(items) => SetSequenceMergeable(NewNode(name), items);
    case MapDoc(entries) => SetMapMergeable(NewNode(name).(kind := MAP), entries);
  }

  lemma {:induction false} SetSequenceMergeable(t: Tree, items: seq<Doc>)
    requires (forall d :: d in items ==> ProperKeys(d)) && t.kids == map[]
    ensures SetSequence(t, items).Some? ==>
            Mergeable(SetSequence(t, items).value) && SetSequence(t, items).value.name == t.name
    decreases items, 0
  {
    var blank := seq(|items|, _ => "");
    if items != [] && items[0].MapDoc? {
      NumberedMergeable(SetList(t, blank).(kind := SEQUENCE_MAP), items, 0);
    }
  }

  lemma {:induction false} NumberedMergeable(t: Tree, items: seq<Doc>, i: nat)
    requires i <= |items| && (forall d :: d in items ==> ProperKeys(d))
    requires t.kind == SEQUENCE_MAP && MergeableKids(t) && (i == |items| ==> HasKids(t))
    ensures var r := Numbered(t, items, i); r.Some? ==> Mergeable(r.value) && r.value.name == t.name
    decreases items, 0, |items| - i
  {
    hide Mergeable, ScalarKind, IsKey, PrintNat, ProperKeys;
    MergeableTop(t);
    if i < |items| {
      CreateMergeable(items[i], PrintNat(i));
      var c := Create(items[i], PrintNat(i));
      if c.Some? {
        NumberIsKey(i);
        AddChildMergeable(t, PrintNat(i), c.value);
        MergeableTop(AddChild(t, PrintNat(i), c.value));
        NumberedMergeable(AddChild(t, PrintNat(i), c.value), items, i + 1);
      }
    }
  }

  lemma NumberIsKey(i: nat)
    ensures IsKey(PrintNat(i)) && PrintNat(i) != "root"
  {
    PrintNatDigits(i);
    assert !IsDigit('/') && !IsDigit("root"[0]);
  }

  lemma {:induction false} SetMapMergeable(t: Tree, entries: seq<Entry>)
    requires forall e :: e in entries ==> ProperPath(KeyPath(e.key)) && KeyPath(e.key) != [] && ProperKeys(e.value)
    requires Mergeable(t) && IsMapLike(t.kind)
    ensures SetMap(t, entries).Some? ==> Mergeable(SetMap(t, entries).value) && SetMap(t, entries).value.name == t.name
    decreases entries, 0
  {
    if entries != [] {
      hide Mergeable, ScalarKind, IsKey, ProperKeys, SetEntry, KeyPath;
      var e := entries[0];
      CreateMergeable(e.value, EntryName(e.key));
      var c := Create(e.value, EntryName(e.key));
      SetEntryFails(t, e.key);
      if c.Some? && SetEntry(t, e.key, c).Some? {
        SetEntryMergeable(t, e.key, c.value);
        SetMapMergeable(SetEntry(t, e.key, c).value, entries[1..]);
      }
    }
  }

  lemma SetEntryFails(t: Tree, key: string)
    ensures SetEntry(t, key, None).None?
  {
  }
}
