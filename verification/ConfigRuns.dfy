/** The two trees of a YamlConfiguration and its deferred writing (src/libs/config/yaml.cpp): what holds
    over every run of lock, set, erase and unlock, and what the file gives back. */
module ConfigRuns {
  import opened Paths
  import opened ScalarText
  import opened ConfigTree
  import opened ConfigDoc
  import opened EmitReread

  /** root_, host_root_, host_file_, write_pending_, whether the mutex is held, and the document in the
      host file. */
  datatype Config = Config(root: Tree, host: Tree, hostFile: string, file: Option<Doc>, pending: bool, locked: bool)

  /** The state after a call, and whether it returned normally. */
  datatype Result = Result(config: Config, ok: bool)

  datatype Step = Put(path: string, text: string) | PutList(path: string, values: seq<string>) | Remove(path: string)
      | Lock | Unlock

  /** write_host_file: try_lock fails while the mutex is held. */
  function WriteHost(c: Config): Result {
    if c.hostFile == "" then Result(c, false)
    else if !c.locked then Result(c.(file := Emit(c.host)), true)
    else Result(c.(pending := true), true)
  }

  /** set_float, set_uint, set_int, set_bool and set_string, given the text of the value. */
  function PutScalar(c: Config, p: Path, text: string): Result {
    var r := SetValue(c.root, p, text);
    var c' := c.(root := r.tree);
    if !r.ok then Result(c', false)
    else
      var h := SetValue(c.host, p, text);
      var c'' := c'.(host := h.tree);
      if !h.ok then Result(c'', false) else WriteHost(c'')
  }

  /** set_floats, set_uints, set_ints, set_bools and set_strings. */
  function PutItems(c: Config, p: Path, values: seq<string>): Result {
    var r := SetListAt(c.root, p, values);
    var c' := c.(root := r.tree);
    if !r.ok then Result(c', false)
    else
      var h := SetListAt(c.host, p, values);
      var c'' := c'.(host := h.tree);
      if !h.ok then Result(c'', false) else WriteHost(c'')
  }

  function EraseBoth(c: Config, p: Path): Result {
    var h := ConfigTree.Erase(c.host, p);
    var c' := c.(host := h.tree);
    if !h.ok then Result(c', false)
    else
      var r := ConfigTree.Erase(c.root, p);
      var c'' := c'.(root := r.tree);
      if !r.ok then Result(c'', false) else WriteHost(c'')
  }

  function UnlockNow(c: Config): Config {
    if c.pending then c.(file := Emit(c.host), pending := false, locked := false) else c.(locked := false)
  }

  /** Locking a held mutex waits, and only the holder may unlock. */
  predicate Enabled(c: Config, s: Step) {
    (s.Lock? ==> !c.locked) && (s.Unlock? ==> c.locked)
  }

  function Do(c: Config, s: Step): Result {
    match s
    case Put(path, text) => PutScalar(c, Split(path), text)
    case PutList(path, values) => PutItems(c, Split(path), values)
    case Remove(path) => EraseBoth(c, Split(path))
    case Lock => Result(c.(locked := true), true)
    case Unlock => Result(UnlockNow(c), true)
  }

  function After(c: Config, steps: seq<Step>): Config
    decreases |steps|
  {
    if steps == [] then c else After(Do(c, steps[0]).config, steps[1..])
  }

  ghost predicate IsRun(c: Config, steps: seq<Step>)
    decreases |steps|
  {
    steps != [] ==> Enabled(c, steps[0]) && IsRun(Do(c, steps[0]).config, steps[1..])
  }

  // ---- The invariant ----

  /** The same text or the same items; scalars may differ in type. */
  predicate SameButType(a: Leaf, b: Leaf) {
    a.text == b.text && a.items == b.items && (a.kind == b.kind || (IsScalarKind(a.kind) && IsScalarKind(b.kind)))
  }

  /** Every leaf of the host tree is a leaf of the effective tree, with the same contents. */
  ghost predicate HostWithin(host: Tree, root: Tree) {
    Within(Leafs(host), Leafs(root))
  }

  ghost predicate Within(a: map<Path, Leaf>, b: map<Path, Leaf>) {
    forall p :: p in a ==> p in b && SameButType(a[p], b[p])
  }

  /** The host leaves have the types that the effective tree gives them. */
  ghost predicate Typed(c: Config) {
    TypesAgree(Leafs(c.host), Leafs(c.root))
  }

  ghost predicate TypesAgree(a: map<Path, Leaf>, b: map<Path, Leaf>) {
    forall p :: p in a && p in b ==> a[p].kind == b[p].kind
  }

  /** A file is what emit writes for the host tree, or else gives the same leaves when it is read. */
  ghost predicate Fits(file: Option<Doc>, host: Tree) {
    Reread(file).Some? && (file == Emit(host) || Leafs(Reread(file).value) == Leafs(host))
  }

  ghost predicate Stored(c: Config) {
    Fits(c.file, c.host)
  }

  ghost predicate Sound(root: Tree, host: Tree) {
    Named(root) && Named(host) && HostWithin(host, root)
  }

  ghost predicate Inv(c: Config) {
    && c.hostFile != ""
    && Sound(c.root, c.host)
    && (c.pending || Stored(c))
    && (c.pending ==> c.locked)
  }

  // ---- Names ----

  lemma NamedKids(t: Tree, k: string)
    requires Named(t) && k in t.kids
    ensures Named(t.kids[k]) && t.kids[k].name == k && IsKey(k)
  {
  }

  lemma NamedUpdate(t: Tree, k: string, c: Tree, kind: Kind)
    requires Named(t) && Named(c) && c.name == k && IsKey(k)
    ensures Named(t.(kind := kind, kids := t.kids[k := c]))
  {
  }

  lemma {:induction false} NamedGraft(t: Tree, p: Path, s: Tree)
    requires Named(t) && Exists(t, p) && Named(s) && s.name == Lookup(t, p).value.name
    ensures Named(Graft(t, p, s)) && Graft(t, p, s).name == t.name
    decreases p
  {
    hide Named;
    if p != [] {
      var k := p[0];
      NamedKids(t, k);
      NamedGraft(t.kids[k], p[1..], s);
      NamedUpdate(t, k, Graft(t.kids[k], p[1..], s), t.kind);
    }
  }

  lemma NamedNew(k: string)
    ensures Named(NewNode(k))
  {
  }

  lemma {:induction false} NamedInsert(t: Tree, p: Path)
    requires Named(t) && IsPath(p)
    ensures Named(ConfigTree.FindOrInsert(t, p)) && ConfigTree.FindOrInsert(t, p).name == t.name
    decreases p
  {
    hide Named, IsKey;
    if p != [] {
      var k, t' := p[0], InsertChild(t, p[0]);
      assert IsKey(k);
      NamedNew(k);
      if k !in t.kids { NamedUpdate(t, k, NewNode(k), ChildKind(t.kind)); }
      NamedKids(t', k);
      NamedInsert(t'.kids[k], p[1..]);
      NamedUpdate(t', k, ConfigTree.FindOrInsert(t'.kids[k], p[1..]), t'.kind);
    }
  }

  lemma {:induction false} NamedAtPath(t: Tree, p: Path)
    requires Named(t) && Exists(t, p)
    ensures Named(Lookup(t, p).value)
    decreases p
  {
    if p != [] {
      NamedAtPath(t.kids[p[0]], p[1..]);
    }
  }

  /** Changing the value of a node leaves the names alone. */
  lemma NamedPut(t: Tree, p: Path, n: Tree)
    requires Named(t) && IsPath(p)
    requires var o := Lookup(ConfigTree.FindOrInsert(t, p), p).value; n.name == o.name && n.kids == o.kids
    ensures Named(Graft(ConfigTree.FindOrInsert(t, p), p, n))
  {
    var t' := ConfigTree.FindOrInsert(t, p);
    NamedInsert(t, p);
    NamedAtPath(t', p);
    NamedGraft(t', p, n);
  }

  lemma {:induction false} NamedCut(t: Tree, p: Path)
    requires Named(t) && p != [] && Exists(t, p)
    ensures Named(Cut(t, p)) && Cut(t, p).name == t.name
    decreases p
  {
    if |p| > 1 {
      hide Named;
      NamedKids(t, p[0]);
      NamedCut(t.kids[p[0]], p[1..]);
      NamedUpdate(t, p[0], Cut(t.kids[p[0]], p[1..]), t.kind);
    }
  }

  lemma {:induction false} NamedPrune(t: Tree, p: Path)
    requires Named(t) && Exists(t, p)
    ensures Named(Prune(t, p))
    decreases |p|
  {
    hide Named;
    if p != [] {
      var parent := p[..|p| - 1];
      NamedCut(t, p);
      LookupSplit(t, parent, p[|p| - 1..]);
      assert parent + p[|p| - 1..] == p;
      LookupCut(t, p, parent);
      if !HasKids(Lookup(Cut(t, p), parent).value) && parent != [] {
        NamedPrune(t, parent);
      }
    }
  }

  /** Where the host tree has an inner node, so has the effective tree. */
  lemma InteriorWithin(root: Tree, host: Tree, p: Path)
    requires HostWithin(host, root)
    ensures IsInterior(host, p) ==> IsInterior(root, p)
  {
    if IsInterior(host, p) {
      var q := SomeLeaf(Lookup(host, p).value);
      LookupSplit(host, p, q);
      LookupSplit(root, p, q);
      assert p + q in Leafs(host);
    }
  }

  // ---- Single calls ----

  lemma PutWithin(host: map<Path, Leaf>, root: map<Path, Leaf>, p: Path, l: Leaf, m: Leaf)
    requires Within(host, root) && SameButType(l, m)
    ensures Within(WithoutPrefixes(host, p)[p := l], WithoutPrefixes(root, p)[p := m])
  {
  }

  lemma SoundPut(root: Tree, host: Tree, root': Tree, host': Tree, p: Path, l: Leaf, m: Leaf)
    requires Sound(root, host) && Named(root') && Named(host') && SameButType(l, m)
    requires Leafs(host') == WithoutPrefixes(Leafs(host), p)[p := l]
    requires Leafs(root') == WithoutPrefixes(Leafs(root), p)[p := m]
    ensures Sound(root', host')
  {
    hide Leafs, Named, SameButType;
    PutWithin(Leafs(host), Leafs(root), p, l, m);
  }

  lemma SoundTop(root: Tree, host: Tree)
    requires Named(root) && Named(host) && Leafs(root) == map[] && Leafs(host) == map[]
    ensures Sound(root, host)
  {
  }

  lemma PutNamed(t: Tree, p: Path, text: string)
    requires Named(t) && IsPath(p) && p != []
    ensures Named(SetValue(t, p, text).tree)
  {
    hide Named, IsPath, Graft;
    SetValueOk(t, p, text);
    if !IsInterior(t, p) {
      NamedPut(t, p, SetScalar(Lookup(ConfigTree.FindOrInsert(t, p), p).value, text));
    }
  }

  lemma PutListNamed(t: Tree, p: Path, values: seq<string>)
    requires Named(t) && IsPath(p) && p != []
    ensures Named(SetListAt(t, p, values).tree)
  {
    hide Named, IsPath, Leafs;
    NamedInsert(t, p);
    if SetListAt(t, p, values).ok {
      NamedPut(t, p, SetList(Lookup(ConfigTree.FindOrInsert(t, p), p).value, values));
    }
  }

  /** Setting a scalar either throws and changes nothing, or reaches both trees: it never gets stuck
      between them. */
  lemma PutBothTrees(root: Tree, host: Tree, p: Path, text: string)
    requires Sound(root, host) && IsPath(p)
    ensures SetValue(root, p, text).ok <==> !IsInterior(root, p)
    ensures !SetValue(root, p, text).ok ==> SetValue(root, p, text).tree == root
    ensures SetValue(root, p, text).ok ==>
            SetValue(host, p, text).ok && Sound(SetValue(root, p, text).tree, SetValue(host, p, text).tree)
  {
    hide Named, HostWithin, SetValue, Leafs, WithoutPrefixes, KindAt, IsPath;
    InteriorWithin(root, host, p);
    if p == [] {
      PutAtTop(root, text);
      PutAtTop(host, text);
      if !HasKids(root) { SoundTop(SetScalar(root, text), SetScalar(host, text)); }
    } else {
      SetValueLeafs(root, p, text);
      SetValueLeafs(host, p, text);
      if !IsInterior(root, p) {
        PutNamed(root, p, text);
        PutNamed(host, p, text);
        SoundPut(root, host, SetValue(root, p, text).tree, SetValue(host, p, text).tree, p,
                 Leaf(KindAt(Leafs(host), p, text), text, []), Leaf(KindAt(Leafs(root), p, text), text, []));
      }
    }
  }

  lemma PutAtTop(t: Tree, text: string)
    ensures SetValue(t, [], text) == if HasKids(t) then Outcome(t, false) else Outcome(SetScalar(t, text), true)
    ensures !HasKids(t) ==> Leafs(t) == map[] && Leafs(SetScalar(t, text)) == map[]
    ensures Named(t) ==> Named(SetScalar(t, text))
  {
    if !HasKids(t) {
      NoLeafs(t);
      NoLeafs(SetScalar(t, text));
    }
  }

  lemma PutListAtTop(t: Tree, values: seq<string>)
    ensures SetListAt(t, [], values) == if HasKids(t) then Outcome(t, false) else Outcome(SetList(t, values), true)
    ensures !HasKids(t) ==> Leafs(t) == map[] && Leafs(SetList(t, values)) == map[]
    ensures Named(t) ==> Named(SetList(t, values))
  {
    if !HasKids(t) {
      NoLeafs(t);
      NoLeafs(SetList(t, values));
    }
  }

  lemma PutListBothTrees(root: Tree, host: Tree, p: Path, values: seq<string>)
    requires Sound(root, host) && IsPath(p)
    ensures SetListAt(root, p, values).ok <==> !IsInterior(root, p)
    ensures !SetListAt(root, p, values).ok ==> SetListAt(root, p, values).tree == root
    ensures SetListAt(root, p, values).ok ==>
              SetListAt(host, p, values).ok && Sound(SetListAt(root, p, values).tree, SetListAt(host, p, values).tree)
  {
    hide Named, HostWithin, SetListAt, Leafs, WithoutPrefixes, IsPath;
    InteriorWithin(root, host, p);
    if p == [] {
      PutListAtTop(root, values);
      PutListAtTop(host, values);
      if !HasKids(root) { SoundTop(SetList(root, values), SetList(host, values)); }
    } else {
      SetListLeafs(root, p, values);
      SetListLeafs(host, p, values);
      if !IsInterior(root, p) {
        PutListNamed(root, p, values);
        PutListNamed(host, p, values);
        SoundPut(root, host, SetListAt(root, p, values).tree, SetListAt(host, p, values).tree, p,
                 Leaf(SEQUENCE, "", values), Leaf(SEQUENCE, "", values));
      }
    }
  }

  /** Erasing either throws and changes nothing, or removes the leaf from both trees. */
  lemma EraseBothTrees(root: Tree, host: Tree, p: Path)
    requires Sound(root, host)
    ensures !ConfigTree.Erase(host, p).ok ==> ConfigTree.Erase(host, p).tree == host
    ensures ConfigTree.Erase(host, p).ok ==>
              if p == [] then ConfigTree.Erase(host, p).tree == host && ConfigTree.Erase(root, p).tree == root
              else ConfigTree.Erase(root, p).ok && Sound(ConfigTree.Erase(root, p).tree, ConfigTree.Erase(host, p).tree)
  {
    if p != [] {
      EraseLeafs(host, p);
      EraseLeafs(root, p);
      if p in Leafs(host) {
        NamedPrune(host, p);
        NamedPrune(root, p);
      }
    }
  }

  lemma StoredNow(c: Config)
    requires Sound(c.root, c.host) && c.file == Emit(c.host)
    ensures Stored(c)
  {
    EmitThenReread(c.host);
  }

  lemma WriteHostKeeps(c: Config)
    requires c.hostFile != "" && Sound(c.root, c.host) && (c.pending ==> c.locked)
    ensures WriteHost(c).ok && Inv(WriteHost(c).config)
  {
    if !c.locked { StoredNow(c.(file := Emit(c.host))); }
  }

  /** Every call keeps the invariant, and a call that throws changes nothing. */
  lemma StepKeeps(c: Config, s: Step)
    requires Inv(c) && Enabled(c, s)
    ensures Inv(Do(c, s).config)
    ensures !Do(c, s).ok ==> Do(c, s).config == c
  {
    hide Sound, Stored, Emit, SetValue, SetListAt, ConfigTree.Erase;
    match s
    case Put(path, text) =>
      var p := Split(path);
      PutBothTrees(c.root, c.host, p, text);
      if SetValue(c.root, p, text).ok {
        WriteHostKeeps(c.(root := SetValue(c.root, p, text).tree, host := SetValue(c.host, p, text).tree));
      }
    case PutList(path, values) =>
      var p := Split(path);
      PutListBothTrees(c.root, c.host, p, values);
      if SetListAt(c.root, p, values).ok {
        WriteHostKeeps(c.(root := SetListAt(c.root, p, values).tree, host := SetListAt(c.host, p, values).tree));
      }
    case Remove(path) =>
      var p := Split(path);
      EraseBothTrees(c.root, c.host, p);
      if ConfigTree.Erase(c.host, p).ok {
        var c' := c.(root := ConfigTree.Erase(c.root, p).tree, host := ConfigTree.Erase(c.host, p).tree);
        if ConfigTree.Erase(c.root, p).ok { WriteHostKeeps(c'); }
      }
    case Lock =>
      StoredTrees(c, c.(locked := true));
    case Unlock =>
      if c.pending { StoredNow(UnlockNow(c)); } else { StoredTrees(c, UnlockNow(c)); }
  }

  lemma StoredTrees(c: Config, c': Config)
    requires c'.host == c.host && c'.file == c.file
    ensures Stored(c') <==> Stored(c)
  {
  }

  /** Over every run, the host leaves stay within the effective ones, the file is the host tree as written
      unless a write is pending, and a write is pending only while the configuration is locked. */
  lemma {:induction false} RunKeeps(c: Config, steps: seq<Step>)
    requires Inv(c) && IsRun(c, steps)
    ensures Inv(After(c, steps))
    decreases |steps|
  {
    hide Inv, Do;
    if steps != [] {
      StepKeeps(c, steps[0]);
      RunKeeps(Do(c, steps[0]).config, steps[1..]);
    }
  }

  // ---- Types ----

  /** A text that is put into the host tree anew where another file holds a list. The effective value keeps
      the type of the first item of that list, which is not the type of the text. */
  ghost predicate Mistyped(c: Config, p: Path, text: string) {
    && p in Leafs(c.root) && Leafs(c.root)[p].kind == SEQUENCE && p !in Leafs(c.host)
    && FirstKind(Leafs(c.root)[p].items) != ScalarKind(text)
  }

  lemma PutTypes(host: map<Path, Leaf>, root: map<Path, Leaf>, p: Path, l: Leaf, m: Leaf)
    requires TypesAgree(host, root)
    ensures TypesAgree(WithoutPrefixes(host, p)[p := l], WithoutPrefixes(root, p)[p := m]) <==> l.kind == m.kind
  {
    var host', root' := WithoutPrefixes(host, p)[p := l], WithoutPrefixes(root, p)[p := m];
    assert p in host' && p in root';
  }

  lemma KindsAgree(host: map<Path, Leaf>, root: map<Path, Leaf>, p: Path, text: string)
    requires TypesAgree(host, root) && Within(host, root)
    ensures KindAt(host, p, text) == KindAt(root, p, text) <==>
            !(p in root && root[p].kind == SEQUENCE && p !in host && FirstKind(root[p].items) != ScalarKind(text))
  {
    hide FirstKind, ScalarKind;
  }

  lemma PutKeepsTypes(c: Config, path: string, text: string)
    requires Inv(c) && Typed(c)
    ensures Typed(Do(c, Put(path, text)).config) <==> !Mistyped(c, Split(path), text)
  {
    hide Leafs, SetValue, FirstKind, ScalarKind, KindAt, Within, TypesAgree, Split, Emit, Reread, WithoutPrefixes,
         IsInterior, Named, Stored;
    var p := Split(path);
    LeafNotTop(c.root, p);
    PutBothTrees(c.root, c.host, p, text);
    if p == [] {
      PutAtTop(c.root, text);
      PutAtTop(c.host, text);
    } else if !IsInterior(c.root, p) {
      SetValueLeafs(c.root, p, text);
      SetValueLeafs(c.host, p, text);
      PutTypes(Leafs(c.host), Leafs(c.root), p, Leaf(KindAt(Leafs(c.host), p, text), text, []),
          Leaf(KindAt(Leafs(c.root), p, text), text, []));
      KindsAgree(Leafs(c.host), Leafs(c.root), p, text);
    }
  }

  lemma LeafNotTop(t: Tree, p: Path)
    ensures p in Leafs(t) ==> p != [] && !IsInterior(t, p)
  {
  }

  /** A step from a state in which the types agree keeps them in agreement exactly if it is no mistyped set. */
  lemma StepKeepsTypes(c: Config, s: Step)
    requires Inv(c) && Enabled(c, s) && Typed(c)
    ensures Typed(Do(c, s).config) <==> !(s.Put? && Mistyped(c, Split(s.path), s.text))
  {
    hide Leafs, SetValue, SetListAt, ConfigTree.Erase, Mistyped, TypesAgree, Split, Emit, Reread, WithoutPrefixes,
         IsInterior, Named, Stored;
    match s
    case Put(path, text) => PutKeepsTypes(c, path, text);
    case PutList(path, values) =>
      var p := Split(path);
      PutListBothTrees(c.root, c.host, p, values);
      if p == [] {
        PutListAtTop(c.root, values);
        PutListAtTop(c.host, values);
      } else if !IsInterior(c.root, p) {
        SetListLeafs(c.root, p, values);
        SetListLeafs(c.host, p, values);
        PutTypes(Leafs(c.host), Leafs(c.root), p, Leaf(SEQUENCE, "", values), Leaf(SEQUENCE, "", values));
      }
    case Remove(path) =>
      var p := Split(path);
      EraseBothTrees(c.root, c.host, p);
      if p != [] {
        EraseLeafs(c.host, p);
        EraseLeafs(c.root, p);
        WithoutTypes(Leafs(c.host), Leafs(c.root), p);
      }
    case Lock =>
    case Unlock =>
  }

  lemma WithoutTypes(host: map<Path, Leaf>, root: map<Path, Leaf>, p: Path)
    requires TypesAgree(host, root)
    ensures TypesAgree(host - {p}, root - {p})
  {
  }

  /** No step of the run is a mistyped set. */
  ghost predicate WellTyped(c: Config, steps: seq<Step>)
    decreases |steps|
  {
    steps != [] ==>
        !(steps[0].Put? && Mistyped(c, Split(steps[0].path), steps[0].text))
            && WellTyped(Do(c, steps[0]).config, steps[1..])
  }

  /** Over every run without a mistyped set, every host leaf has the type of the effective leaf. */
  lemma {:induction false} RunKeepsTypes(c: Config, steps: seq<Step>)
    requires Inv(c) && Typed(c) && IsRun(c, steps) && WellTyped(c, steps)
    ensures Typed(After(c, steps))
    decreases |steps|
  {
    hide Inv, Typed, Do, Mistyped;
    if steps != [] {
      StepKeeps(c, steps[0]);
      StepKeepsTypes(c, steps[0]);
      RunKeepsTypes(Do(c, steps[0]).config, steps[1..]);
    }
  }

  // ---- What the file gives back ----

  ghost predicate ScalarStep(s: Step) {
    !s.PutList?
  }

  lemma PutKeepsPlain(t: Tree, p: Path, text: string)
    requires PlainLeaves(t)
    ensures PlainLeaves(SetValue(t, p, text).tree)
  {
    hide Leafs, SetValue, ScalarKind, FirstKind;
    if p == [] {
      PutAtTop(t, text);
    } else {
      SetValueLeafs(t, p, text);
    }
  }

  lemma EraseKeepsPlain(t: Tree, p: Path)
    requires PlainLeaves(t)
    ensures PlainLeaves(ConfigTree.Erase(t, p).tree)
  {
    hide Leafs, PlainLeaf;
    if p != [] {
      EraseLeafs(t, p);
    }
  }

  lemma StepKeepsPlain(c: Config, s: Step)
    requires PlainLeaves(c.host) && ScalarStep(s)
    ensures PlainLeaves(Do(c, s).config.host)
  {
    hide PlainLeaves, SetValue, ConfigTree.Erase, Emit;
    match s
    case Put(path, text) => PutKeepsPlain(c.host, Split(path), text);
    case Remove(path) => EraseKeepsPlain(c.host, Split(path));
    case _ =>
  }

  lemma {:induction false} RunKeepsPlain(c: Config, steps: seq<Step>)
    requires PlainLeaves(c.host) && forall s :: s in steps ==> ScalarStep(s)
    ensures PlainLeaves(After(c, steps).host)
    decreases |steps|
  {
    hide PlainLeaves, Do, ScalarStep;
    if steps != [] {
      StepKeepsPlain(c, steps[0]);
      RunKeepsPlain(Do(c, steps[0]).config, steps[1..]);
    }
  }

  /** Whatever scalar values a run has set and erased, once the configuration is unlocked the file gives
      back exactly the host leaves, types included. */
  lemma ScalarRunsAreStored(c: Config, steps: seq<Step>)
    requires Inv(c) && IsRun(c, steps) && PlainLeaves(c.host) && forall s :: s in steps ==> ScalarStep(s)
    ensures var d := After(c, steps); !d.locked ==> Reread(d.file).Some? && Leafs(Reread(d.file).value) == Leafs(d.host)
  {
    RunKeeps(c, steps);
    RunKeepsPlain(c, steps);
    EmitThenReread(After(c, steps).host);
  }

  /** A list set while unlocked is written, but the file gives back other leaves. */
  lemma ListIsNotStored(c: Config, path: string, values: seq<string>)
    requires Inv(c) && !c.locked && Split(path) != [] && !IsInterior(c.root, Split(path))
    ensures var r := Do(c, PutList(path, values));
            r.ok && Reread(r.config.file).Some? && Leafs(Reread(r.config.file).value) != Leafs(r.config.host)
  {
    hide SetListAt, Emit, Reread, Named, PlainLeaves, Split, IsInterior, HostWithin;
    var p := Split(path);
    PutListBothTrees(c.root, c.host, p, values);
    var h := SetListAt(c.host, p, values).tree;
    EmitThenReread(h);
    ListLeaf(c.host, p, values);
  }

  lemma ListLeaf(t: Tree, p: Path, values: seq<string>)
    requires p != [] && SetListAt(t, p, values).ok
    ensures !PlainLeaves(SetListAt(t, p, values).tree)
  {
    var h := SetListAt(t, p, values).tree;
    SetListLeafs(t, p, values);
    assert p in Leafs(h) && Leafs(h)[p].kind == SEQUENCE;
  }

  /** What is written for a list is the text that its node had before. */
  lemma ListFileText(t: Tree, p: Path, values: seq<string>)
    requires Named(SetListAt(t, p, values).tree) && p != [] && !IsInterior(t, p)
    ensures var text := if Exists(t, p) then Lookup(t, p).value.scalar else "";
            var r := Reread(Emit(SetListAt(t, p, values).tree));
            r.Some? && p in Leafs(r.value) && Leafs(r.value)[p] == Leaf(ScalarKind(text), text, [])
  {
    hide Named, SetListAt, Lookup, ScalarKind, HasKids, LeafOf, EmitValue, EmitMap;
    var u := SetListAt(t, p, values).tree;
    ListIsThere(t, p, values);
    FileLeaf(u, p);
  }

  lemma ListIsThere(t: Tree, p: Path, values: seq<string>)
    requires p != [] && !IsInterior(t, p)
    ensures var u := SetListAt(t, p, values).tree;
            && IsLeaf(u, p)
            && Lookup(u, p).value.scalar == if Exists(t, p) then Lookup(t, p).value.scalar else ""
  {
    hide FindOrInsert, Graft;
    if Exists(t, p) { FindOrInsertExisting(t, p); } else { LookupInserted(t, p, p); }
    PutLookup(t, p, SetList(Lookup(FindOrInsert(t, p), p).value, values), p);
  }

  /** The file that is written for a tree gives back every leaf as its text. */
  lemma FileLeaf(u: Tree, p: Path)
    requires Named(u) && IsLeaf(u, p)
    ensures var text, r := Lookup(u, p).value.scalar, Reread(Emit(u));
            r.Some? && p in Leafs(r.value) && Leafs(r.value)[p] == Leaf(ScalarKind(text), text, [])
  {
    hide ReadBack, Named, ScalarKind;
    assert HasKids(u);
    CreateEmitted(u, "root");
    assert EmitMap(u) == EmitValue(u);
    ReadBackLeaf(u, "root", p);
    assert IsLeaf(ReadBack(u, "root"), p);
  }

  /** A text and then a list set at the same path: the file has the text. */
  lemma ListAfterText(c: Config, path: string, text: string, values: seq<string>)
    requires Inv(c) && !c.locked && Split(path) != [] && !IsInterior(c.root, Split(path))
    ensures var r := Do(Do(c, Put(path, text)).config, PutList(path, values));
            && r.ok && Reread(r.config.file).Some? && Split(path) in Leafs(Reread(r.config.file).value)
            && Leafs(Reread(r.config.file).value)[Split(path)] == Leaf(ScalarKind(text), text, [])
  {
    hide SetListAt, SetValue, Emit, Reread, Named, PlainLeaves, Split, IsInterior, HostWithin, Leafs, ScalarKind;
    var p := Split(path);
    PutBothTrees(c.root, c.host, p, text);
    StepKeeps(c, Put(path, text));
    var d := Do(c, Put(path, text)).config;
    PutIsThere(c.root, p, text);
    PutIsThere(c.host, p, text);
    StepKeeps(d, PutList(path, values));
    PutListBothTrees(d.root, d.host, p, values);
    ListFileText(d.host, p, values);
  }

  lemma PutIsThere(t: Tree, p: Path, text: string)
    requires p != [] && SetValue(t, p, text).ok
    ensures var u := SetValue(t, p, text).tree;
            !IsInterior(u, p) && Exists(u, p) && Lookup(u, p).value.scalar == text
  {
    hide FirstKind, ScalarKind, FindOrInsert, Graft;
    SetValueOk(t, p, text);
    PutLookup(t, p, SetScalar(Lookup(FindOrInsert(t, p), p).value, text), p);
  }

  lemma PutListKeepsPlain(t: Tree, p: Path, values: seq<string>, text: string)
    requires PlainLeaves(t) && p != [] && !IsInterior(t, p)
    ensures var u := SetListAt(t, p, values).tree;
            && !IsInterior(u, p) && KindAt(Leafs(u), p, text) == FirstKind(values)
            && (PlainLeaves(SetValue(u, p, text).tree) <==> FirstKind(values) == ScalarKind(text))
  {
    hide SetListAt, SetValue, FirstKind, ScalarKind, Leafs, IsInterior;
    var u := SetListAt(t, p, values).tree;
    SetListLeafs(t, p, values);
    LeafNotTop(u, p);
    SetValueLeafs(u, p, text);
    var m := Leafs(SetValue(u, p, text).tree);
    assert m[p] == Leaf(FirstKind(values), text, []);
    if FirstKind(values) == ScalarKind(text) {
      forall q | q in m ensures PlainLeaf(m[q]) { assert q != p ==> q in Leafs(t) && m[q] == Leafs(t)[q]; }
    }
  }

  /** A scalar set where a list was set before: the file gives back the host leaves again exactly if the
      text has the type of the first item of that list. */
  lemma TextAfterList(c: Config, path: string, values: seq<string>, text: string)
    requires Inv(c) && !c.locked && PlainLeaves(c.host) && Split(path) != [] && !IsInterior(c.root, Split(path))
    ensures var l := Do(c, PutList(path, values));
            var r := Do(l.config, Put(path, text));
            && l.ok && r.ok && Reread(r.config.file).Some?
            && (Leafs(Reread(r.config.file).value) == Leafs(r.config.host) <==> FirstKind(values) == ScalarKind(text))
  {
    hide SetListAt, SetValue, FirstKind, ScalarKind, Leafs, Split, IsInterior, PlainLeaves, Reread, Emit, HostWithin,
         Named, KindAt, Stored, WithoutPrefixes;
    var p := Split(path);
    PutListBothTrees(c.root, c.host, p, values);
    var d := Do(c, PutList(path, values)).config;
    SetListLeafs(c.root, p, values);
    LeafNotTop(d.root, p);
    InteriorWithin(c.root, c.host, p);
    PutListKeepsPlain(c.host, p, values, text);
    PutBothTrees(d.root, d.host, p, text);
    EmitThenReread(Do(d, Put(path, text)).config.host);
  }

  lemma SplitName()
    ensures Split("/l") == ["l"]
  {
    assert Join(["l"]) == "/l" by { assert ["l"][1..] == []; }
    SplitJoin(["l"]);
  }

  /** A configuration with one leaf in another file and an empty host file. */
  function OtherFileHolds(n: Tree): Config {
    Config(NewRoot().(kids := map["l" := n]), NewRoot(), "host.yaml", None, false, false)
  }

  lemma OtherFileInv(n: Tree)
    requires n.name == "l" && Named(n)
    ensures Inv(OtherFileHolds(n)) && Leafs(NewRoot()) == map[]
  {
    hide Leafs;
    NoLeafs(NewRoot());
    NamedUpdate(NewRoot(), "l", n, UNKNOWN);
    assert NewRoot().kids["l" := n] == map["l" := n];
  }

  lemma OtherFileLeafs(n: Tree)
    requires n.kids == map[]
    ensures Leafs(OtherFileHolds(n).root) == map[["l"] := LeafOf(n)]
    ensures !IsInterior(OtherFileHolds(n).root, ["l"])
  {
    hide Leafs;
    OneLeaf("l", n);
  }

  /** Another file holds the list [1, 2] and a string is set in its place: both trees have the text, but
      the effective value is of type "unsigned int" and the host value of type "string". */
  lemma ListGivesItsType()
    ensures var r := Do(OtherFileHolds(SetList(NewNode("l"), ["1", "2"])), Put("/l", "x"));
            && r.ok && Inv(r.config) && !Typed(r.config)
            && ["l"] in Leafs(r.config.root) && Leafs(r.config.root)[["l"]] == Leaf(UINT32, "x", [])
            && ["l"] in Leafs(r.config.host) && Leafs(r.config.host)[["l"]] == Leaf(STRING, "x", [])
  {
    hide FirstKind, ScalarKind, Leafs, Split, SetValue, Emit, Reread, Stored, HostWithin, WithoutPrefixes, IsInterior;
    var c := OtherFileHolds(SetList(NewNode("l"), ["1", "2"]));
    TextKinds();
    SplitName();
    OtherFileInv(SetList(NewNode("l"), ["1", "2"]));
    OtherFileLeafs(SetList(NewNode("l"), ["1", "2"]));
    StepKeeps(c, Put("/l", "x"));
    PutBothTrees(c.root, c.host, ["l"], "x");
    SetValueLeafs(c.root, ["l"], "x");
    SetValueLeafs(c.host, ["l"], "x");
  }

  /** Without a host file every successful set reports an error, although both trees have taken the value. */
  lemma NoHostFile(c: Config, path: string, text: string)
    requires c.hostFile == "" && Sound(c.root, c.host) && Split(path) != [] && !IsInterior(c.root, Split(path))
    ensures var r := Do(c, Put(path, text));
            var p := Split(path);
            && !r.ok && r.config.file == c.file && r.config.pending == c.pending
            && p in Leafs(r.config.root) && Leafs(r.config.root)[p] == Leaf(KindAt(Leafs(c.root), p, text), text, [])
            && p in Leafs(r.config.host) && Leafs(r.config.host)[p] == Leaf(KindAt(Leafs(c.host), p, text), text, [])
  {
    hide SetValue, Leafs, Sound, KindAt, Split, IsInterior, WithoutPrefixes;
    PutBothTrees(c.root, c.host, Split(path), text);
    SetValueLeafs(c.root, Split(path), text);
    SetValueLeafs(c.host, Split(path), text);
  }
}
