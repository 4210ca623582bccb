/** Mirroring a configuration over the network: what the server sends when a client subscribes
    (src/libs/config/net_handler.cpp, src/libs/config/net_list_content.cpp) and what the client's
    MemoryConfiguration (src/libs/config/memory.cpp) holds when it has taken in the list
    (src/libs/config/netconf.cpp). */
module Mirror {
  import opened Paths
  import opened ScalarText
  import opened ConfigTree
  import opened LeafDiff
  import opened CStrings
  import opened NetCodec
  import opened ListBuffer
  import opened MapFacts
  import opened NumberText

  /** Reading and printing of floating-point texts, left open: a float is its 32 bits. */
  datatype FloatText = FloatText(parse: string -> Uint32, show: Uint32 -> string)

  // ---- Typed access to a leaf (get_value, get_list and is_type of a node) ----

  function ItemsOf(n: Tree): seq<string> {
    if n.kind == SEQUENCE then n.items else [n.scalar]
  }

  function AllUints(items: seq<string>): Option<seq<Uint32>> {
    if forall i :: 0 <= i < |items| ==> AsUint(items[i]).Some? then
      Some(seq(|items|, i requires 0 <= i < |items| => if AsUint(items[i]).Some? then AsUint(items[i]).value else 0))
    else None
  }

  function AllInts(items: seq<string>): Option<seq<Int32>> {
    if forall i :: 0 <= i < |items| ==> AsInt(items[i]).Some? then
      Some(seq(|items|, i requires 0 <= i < |items| => if AsInt(items[i]).Some? then AsInt(items[i]).value else 0))
    else None
  }

  function AllBools(items: seq<string>): Option<seq<bool>> {
    if forall i :: 0 <= i < |items| ==> AsBool(items[i]).Some? then
      Some(seq(|items|, i requires 0 <= i < |items| => AsBool(items[i]) == Some(true)))
    else None
  }

  function AllFloats(items: seq<string>, ft: FloatText): Option<seq<Uint32>> {
    if forall i :: 0 <= i < |items| ==> IsFloat(items[i]) then
      Some(seq<Uint32>(|items|, i requires 0 <= i < |items| => ft.parse(items[i])))
    else None
  }

  /** The values that append takes from the iterator: the first item decides how all are read, and None
      where that throws. */
  function ValuesRead(items: seq<string>, ft: FloatText): Option<Values> {
    if items == [] || AsUint(items[0]).Some? then
      var us := AllUints(items); if us.Some? then Some(Uints(us.value)) else None
    else if AsInt(items[0]).Some? then
      var is' := AllInts(items); if is'.Some? then Some(Ints(is'.value)) else None
    else if AsBool(items[0]).Some? then
      var bs := AllBools(items); if bs.Some? then Some(Bools(bs.value)) else None
    else if IsFloat(items[0]) then
      var fs := AllFloats(items, ft); if fs.Some? then Some(Floats(fs.value)) else None
    else Some(Strings(items))
  }

  /** What append sends for a leaf. */
  function EntityOf(path: string, n: Tree, ft: FloatText): Option<Entity> {
    var v := ValuesRead(ItemsOf(n), ft);
    if v.Some? then Some(Entity(path, n.isDefault, n.kind == SEQUENCE, v.value)) else None
  }

  /** Reading a leaf with the accessor for a kind of values gives exactly these. */
  predicate Reads(n: Tree, v: Values, ft: FloatText) {
    match v
    case Uints(us) => AllUints(ItemsOf(n)) == Some(us)
    case Ints(is') => AllInts(ItemsOf(n)) == Some(is')
    case Bools(bs) => AllBools(ItemsOf(n)) == Some(bs)
    case Strings(ss) => ItemsOf(n) == ss
    case Floats(fs) => AllFloats(ItemsOf(n), ft) == Some(fs)
  }

  // ---- The two passes of the server ----

  /** One pass over the leaves in the order of their texts, for those with the given default flag. */
  function Pass(e: map<string, Tree>, ks: seq<string>, isDefault: bool, ft: FloatText): Option<seq<Entity>>
    requires forall k :: k in ks ==> k in e
  {
    if ks == [] then Some([])
    else if e[ks[0]].isDefault != isDefault then Pass(e, ks[1..], isDefault, ft)
    else
      var entity := EntityOf(ks[0], e[ks[0]], ft);
      if entity.None? then None else Prepended([entity.value], Pass(e, ks[1..], isDefault, ft))
  }

  /** The entities of both passes, or None if some leaf cannot be read. */
  function Listed(t: Tree, ft: FloatText): Option<seq<Entity>> {
    var e := Enum(t, "");
    var ks := SortedKeys(e.Keys);
    var defaults, others := Pass(e, ks, true, ft), Pass(e, ks, false, ft);
    if defaults.None? || others.None? then None else Some(defaults.value + others.value)
  }

  function RecordSize(e: Entity): nat {
    HEADER + BodySize(e.values)
  }

  function RecordSizes(es: seq<Entity>): seq<nat> {
    seq(|es|, i requires 0 <= i < |es| => RecordSize(es[i]))
  }

  /** The list buffer takes the records of these entities. */
  predicate HasRoom(es: seq<Entity>) {
    Grown(RecordSizes(es)).Some?
  }

  /** The entities that a subscriber is sent, or None if making the list throws. */
  function Sent(t: Tree, ft: FloatText): Option<seq<Entity>> {
    var es := Listed(t, ft);
    if es.Some? && HasRoom(es.value) then es else None
  }

  // ---- The client's store ----

  /** set_default with a path. */
  function MarkDefault(t: Tree, p: Path, isDefault: bool): Tree
    requires Exists(t, p)
  {
    Graft(t, p, Lookup(t, p).value.(isDefault := isDefault))
  }

  /** set_* and set_default_* of MemoryConfiguration with the text of a scalar. */
  function Store(t: Tree, p: Path, text: string, isDefault: bool): Outcome {
    var r := SetValue(t, p, text);
    if !r.ok then r
    else
      PutExists(t, p, SetScalar(Lookup(FindOrInsert(t, p), p).value, text));
      Outcome(MarkDefault(r.tree, p, isDefault), true)
  }

  /** set_* of MemoryConfiguration with the texts of a list. */
  function StoreList(t: Tree, p: Path, items: seq<string>): Outcome {
    var r := SetListAt(t, p, items);
    if !r.ok then r
    else
      PutExists(t, p, SetList(Lookup(FindOrInsert(t, p), p).value, items));
      Outcome(MarkDefault(r.tree, p, false), true)
  }

  /** Setting marks the node as default or not and is otherwise set_value, and set_list marks it as no default; where
      they throw nothing is marked. */
  lemma StoreMarks(t: Tree, p: Path, text: string, items: seq<string>, isDefault: bool)
    ensures Store(t, p, text, isDefault).ok == SetValue(t, p, text).ok
    ensures StoreList(t, p, items).ok == SetListAt(t, p, items).ok
    ensures Store(t, p, text, isDefault).ok ==>
            var r := Store(t, p, text, isDefault).tree;
            && Exists(r, p) && Lookup(r, p).value.isDefault == isDefault && Leafs(r) == Leafs(SetValue(t, p, text).tree)
    ensures StoreList(t, p, items).ok ==>
            var r := StoreList(t, p, items).tree;
            && Exists(r, p) && !Lookup(r, p).value.isDefault && Leafs(r) == Leafs(SetListAt(t, p, items).tree)
  {
    hide Leafs, FindOrInsert, Graft, Lookup;
    if SetValue(t, p, text).ok {
      PutExists(t, p, SetScalar(Lookup(FindOrInsert(t, p), p).value, text));
      MarkLeafs(SetValue(t, p, text).tree, p, isDefault);
    }
    if SetListAt(t, p, items).ok {
      PutExists(t, p, SetList(Lookup(FindOrInsert(t, p), p).value, items));
      MarkLeafs(SetListAt(t, p, items).tree, p, false);
    }
  }

  /** Marking a node changes no leaf. */
  lemma MarkLeafs(t: Tree, p: Path, isDefault: bool)
    requires Exists(t, p)
    ensures var r := MarkDefault(t, p, isDefault);
            Exists(r, p) && Lookup(r, p).value.isDefault == isDefault && Leafs(r) == Leafs(t)
  {
    var n := Lookup(t, p).value;
    var m := n.(isDefault := isDefault);
    var r := MarkDefault(t, p, isDefault);
    LookupGraft(t, p, m, p);
    assert p[|p|..] == [];
    forall q
      ensures IsLeaf(r, q) <==> IsLeaf(t, q)
      ensures IsLeaf(r, q) ==> LeafOf(Lookup(r, q).value) == LeafOf(Lookup(t, q).value)
    {
      LookupGraft(t, p, m, q);
      if p <= q {
        assert p + q[|p|..] == q;
        LookupSplit(t, p, q[|p|..]);
        MarkedBelow(n, isDefault, q[|p|..]);
      }
    }
    MapExt(Leafs(r), Leafs(t));
  }

  lemma MarkedBelow(n: Tree, isDefault: bool, q: Path)
    ensures var m := n.(isDefault := isDefault);
            && (Exists(m, q) <==> Exists(n, q))
            && (Exists(n, q) ==> Lookup(m, q).value == if q == [] then m else Lookup(n, q).value)
  {
  }

  lemma PutExists(t: Tree, p: Path, n: Tree)
    ensures Exists(Graft(FindOrInsert(t, p), p, n), p) && Lookup(Graft(FindOrInsert(t, p), p, n), p) == Some(n)
  {
    LookupGraft(FindOrInsert(t, p), p, n, p);
    assert p[|p|..] == [];
  }

  /** The texts that the values of an entity are stored as (StringConversions::to_string). */
  function TextsOf(v: Values, ft: FloatText): (r: seq<string>)
    ensures |r| == Count(v)
  {
    match v
    case Uints(us) => seq(|us|, i requires 0 <= i < |us| => PrintNat(us[i]))
    case Ints(is') => seq(|is'|, i requires 0 <= i < |is'| => PrintInt(is'[i]))
    case Bools(bs) => seq(|bs|, i requires 0 <= i < |bs| => PrintBool(bs[i]))
    case Floats(fs) => seq(|fs|, i requires 0 <= i < |fs| => ft.show(fs[i]))
    case Strings(ss) => ss
  }

  predicate Shape(e: Entity) {
    !e.isList ==> Count(e.values) == 1
  }

  /** The text stored for a single value. set_default_string hands a char pointer to set_value, which picks
      the conversion from bool for it; set_string cuts at a terminator. */
  function ScalarStored(e: Entity, ft: FloatText): string
    requires Count(e.values) == 1
  {
    if e.values.Strings? then
      if e.isDefault then PrintBool(true) else e.values.strings[0][..Length(e.values.strings[0])]
    else TextsOf(e.values, ft)[0]
  }

  /** One round of the list loop of inbound_received. */
  function Receive(t: Tree, e: Entity, ft: FloatText): Outcome
    requires Shape(e)
  {
    if e.isList then StoreList(t, Split(e.path), TextsOf(e.values, ft))
    else Store(t, Split(e.path), ScalarStored(e, ft), e.isDefault)
  }

  function ReceiveAll(t: Tree, es: seq<Entity>, ft: FloatText): Outcome
    requires forall e :: e in es ==> Shape(e)
    decreases |es|
  {
    if es == [] then Outcome(t, true)
    else
      var r := Receive(t, es[0], ft);
      if r.ok then ReceiveAll(r.tree, es[1..], ft) else r
  }

  // ---- Storing leaves whose paths do not run through one another ----

  /** The leaves of the tree are exactly these. */
  ghost predicate Holding(t: Tree, done: map<Path, Tree>) {
    && (forall p :: IsLeaf(t, p) <==> p in done)
    && (forall p :: p in done ==> Lookup(t, p) == Some(done[p]))
  }

  predicate Apart(p: Path, q: Path) {
    !(p <= q) && !(q <= p)
  }

  /** A node other than the top has a leaf at or below it. */
  lemma Covered(t: Tree, done: map<Path, Tree>, p: Path)
    requires Holding(t, done) && p != [] && Exists(t, p)
    ensures exists q :: q in done && p <= q
  {
    if IsLeaf(t, p) {
      assert p <= p;
    } else {
      var q := SomeLeaf(Lookup(t, p).value);
      LookupSplit(t, p, q);
      assert p <= p + q;
    }
  }

  lemma NewPath(t: Tree, done: map<Path, Tree>, p: Path)
    requires Holding(t, done) && p != [] && forall q :: q in done ==> Apart(p, q)
    ensures !Exists(t, p)
  {
    hide Holding, Exists;
    if Exists(t, p) {
      Covered(t, done, p);
    }
  }

  lemma PrefixCases(p: Path, q: Path)
    ensures q < p || q == p || p < q || Apart(p, q)
  {
  }

  lemma PutHolding(t: Tree, done: map<Path, Tree>, p: Path, n: Tree)
    requires Holding(t, done) && p != [] && !HasKids(n) && forall q :: q in done ==> Apart(p, q)
    ensures Holding(Graft(FindOrInsert(t, p), p, n), done[p := n])
  {
    hide Lookup, FindOrInsert, Graft;
    NewPath(t, done, p);
    var t' := Graft(FindOrInsert(t, p), p, n);
    forall q
      ensures IsLeaf(t', q) <==> q in done[p := n]
      ensures q in done[p := n] ==> Lookup(t', q) == Some(done[p := n][q])
    {
      PutLookup(t, p, n, q);
      PrefixCases(p, q);
    }
  }

  lemma {:induction false} GraftTwice(t: Tree, p: Path, m: Tree, n: Tree)
    requires Exists(t, p)
    ensures Exists(Graft(t, p, m), p) && Graft(Graft(t, p, m), p, n) == Graft(t, p, n)
    decreases p
  {
    if p != [] {
      var c := t.kids[p[0]];
      GraftTwice(c, p[1..], m, n);
      UpdateTwice(t.kids, p[0], Graft(c, p[1..], m), Graft(c, p[1..], n));
    }
  }

  /** The node that the client stores for an entity. */
  function Stored(e: Entity, ft: FloatText): Tree
    requires Shape(e)
  {
    var p := Split(e.path);
    var n := NewNode(if p == [] then "" else p[|p| - 1]);
    if e.isList then SetList(n, TextsOf(e.values, ft)) else SetScalar(n, ScalarStored(e, ft)).(isDefault := e.isDefault)
  }

  /** Storing an entity at a path apart from all others succeeds and adds that leaf. */
  lemma ReceiveHolding(t: Tree, done: map<Path, Tree>, e: Entity, ft: FloatText)
    requires Shape(e) && Holding(t, done) && Split(e.path) != [] && forall q :: q in done ==> Apart(Split(e.path), q)
    ensures Receive(t, e, ft).ok && Holding(Receive(t, e, ft).tree, done[Split(e.path) := Stored(e, ft)])
  {
    var p := Split(e.path);
    NewPath(t, done, p);
    LookupInserted(t, p, p);
    var n := NewNode(p[|p| - 1]);
    var m := if e.isList then SetList(n, TextsOf(e.values, ft)) else SetScalar(n, ScalarStored(e, ft));
    PutExists(t, p, m);
    GraftTwice(FindOrInsert(t, p), p, m, Stored(e, ft));
    PutHolding(t, done, p, Stored(e, ft));
  }

  function StoredAll(done: map<Path, Tree>, es: seq<Entity>, ft: FloatText): map<Path, Tree>
    requires forall e :: e in es ==> Shape(e)
    decreases |es|
  {
    if es == [] then done else StoredAll(done[Split(es[0].path) := Stored(es[0], ft)], es[1..], ft)
  }

  /** The paths of the entities are apart from one another and from those that are there already. */
  ghost predicate AllApart(done: map<Path, Tree>, es: seq<Entity>) {
    && (forall e :: e in es ==> Shape(e) && Split(e.path) != [] && forall q :: q in done ==> Apart(Split(e.path), q))
    && (forall i, j :: 0 <= i < j < |es| ==> Apart(Split(es[i].path), Split(es[j].path)))
  }

  lemma ApartRest(done: map<Path, Tree>, es: seq<Entity>, n: Tree)
    requires AllApart(done, es) && es != []
    ensures AllApart(done[Split(es[0].path) := n], es[1..])
  {
    var rest := es[1..];
    forall e, q | e in rest && q in done[Split(es[0].path) := n] ensures Apart(Split(e.path), q) {
      var j :| 0 <= j < |rest| && rest[j] == e;
      assert e == es[j + 1];
      assert Apart(Split(es[0].path), Split(es[j + 1].path));
    }
  }

  lemma {:induction false} ReceiveAllHolding(t: Tree, done: map<Path, Tree>, es: seq<Entity>, ft: FloatText)
    requires AllApart(done, es) && Holding(t, done)
    ensures ReceiveAll(t, es, ft).ok && Holding(ReceiveAll(t, es, ft).tree, StoredAll(done, es, ft))
    decreases |es|
  {
    hide Holding, Receive, Stored, Apart;
    if es != [] {
      assert es[0] in es;
      ReceiveHolding(t, done, es[0], ft);
      ApartRest(done, es, Stored(es[0], ft));
      ReceiveAllHolding(Receive(t, es[0], ft).tree, done[Split(es[0].path) := Stored(es[0], ft)], es[1..], ft);
    }
  }

  lemma NotItself(done: map<Path, Tree>, es: seq<Entity>, p: Path)
    requires AllApart(done, es) && es != [] && p in done
    ensures p != Split(es[0].path)
  {
    assert es[0] in es;
  }

  lemma {:induction false} StoredAllKeys(done: map<Path, Tree>, es: seq<Entity>, ft: FloatText)
    requires AllApart(done, es)
    ensures forall p :: p in StoredAll(done, es, ft) <==> p in done || exists e :: e in es && Split(e.path) == p
    ensures forall p :: p in done ==> p in StoredAll(done, es, ft) && StoredAll(done, es, ft)[p] == done[p]
    ensures forall e :: e in es ==>
            Split(e.path) in StoredAll(done, es, ft) && StoredAll(done, es, ft)[Split(e.path)] == Stored(e, ft)
    decreases |es|
  {
    hide Stored, Split, Apart, AllApart, Shape;
    ShapesOf(done, es);
    if es != [] {
      var e0, rest := es[0], es[1..];
      var done' := done[Split(e0.path) := Stored(e0, ft)];
      ApartRest(done, es, Stored(e0, ft));
      StoredAllKeys(done', rest, ft);
      assert es == [e0] + rest;
      forall p | p in done ensures p != Split(e0.path) { NotItself(done, es, p); }
    }
  }

  lemma ShapesOf(done: map<Path, Tree>, es: seq<Entity>)
    requires AllApart(done, es)
    ensures forall e :: e in es ==> Shape(e)
  {
  }

  // ---- What is sent covers the leaves ----

  lemma EntityShape(path: string, n: Tree, ft: FloatText)
    requires EntityOf(path, n, ft).Some?
    ensures var e := EntityOf(path, n, ft).value; Shape(e) && e.path == path && Count(e.values) == |ItemsOf(n)|
  {
  }

  lemma {:induction false} PassSpec(e: map<string, Tree>, ks: seq<string>, d: bool, ft: FloatText)
    requires (forall k :: k in ks ==> k in e) && NoDuplicates(ks)
    ensures Pass(e, ks, d, ft).Some? <==> forall k :: k in ks && e[k].isDefault == d ==> EntityOf(k, e[k], ft).Some?
    ensures Pass(e, ks, d, ft).Some? ==> PassOf(e, ks, d, ft, Pass(e, ks, d, ft).value)
    decreases |ks|
  {
    hide EntityOf;
    if ks != [] {
      var k, rest := ks[0], ks[1..];
      assert ks == [k] + rest;
      PassSpec(e, rest, d, ft);
      if Pass(e, rest, d, ft).Some? && e[k].isDefault == d && EntityOf(k, e[k], ft).Some? {
        EntityShape(k, e[k], ft);
        PassMore(e, k, rest, d, ft, EntityOf(k, e[k], ft).value, Pass(e, rest, d, ft).value);
      }
    }
  }

  /** The entities of a pass: one for each of the keys with the flag. */
  ghost predicate PassOf(e: map<string, Tree>, ks: seq<string>, d: bool, ft: FloatText, es: seq<Entity>)
    requires forall k :: k in ks ==> k in e
  {
    && (forall x :: x in es ==> x.path in ks && e[x.path].isDefault == d && EntityOf(x.path, e[x.path], ft) == Some(x))
    && (forall k :: k in ks && e[k].isDefault == d ==> exists x :: x in es && x.path == k)
    && (forall i, j :: 0 <= i < j < |es| ==> es[i].path != es[j].path)
  }

  lemma PassMore(e: map<string, Tree>, k: string, rest: seq<string>, d: bool, ft: FloatText, x: Entity, es: seq<Entity>)
    requires (forall j :: j in [k] + rest ==> j in e) && k !in rest && e[k].isDefault == d
    requires PassOf(e, rest, d, ft, es) && EntityOf(k, e[k], ft) == Some(x) && x.path == k
    ensures PassOf(e, [k] + rest, d, ft, [x] + es)
  {
    hide EntityOf;
    var all := [x] + es;
    forall j | j in [k] + rest && e[j].isDefault == d ensures exists y :: y in all && y.path == j {
      if j == k {
        assert x in all;
      } else {
        var y :| y in es && y.path == j;
        assert y in all;
      }
    }
  }

  /** The entities are those of the leaves of the tree, one for each. */
  ghost predicate Covers(t: Tree, ft: FloatText, es: seq<Entity>) {
    && (forall x :: x in es ==> exists p :: EntityAt(t, p, ft, x))
    && (forall p :: IsLeaf(t, p) ==> exists x :: x in es && EntityAt(t, p, ft, x))
    && (forall i, j :: 0 <= i < j < |es| ==> es[i].path != es[j].path)
  }

  ghost predicate EntityAt(t: Tree, p: Path, ft: FloatText, x: Entity) {
    IsLeaf(t, p) && x.path == Join(p) && EntityOf(x.path, Lookup(t, p).value, ft) == Some(x)
  }

  lemma TwoPasses(e: map<string, Tree>, ks: seq<string>, ft: FloatText, a: seq<Entity>, b: seq<Entity>)
    requires (forall k :: k in ks ==> k in e) && PassOf(e, ks, true, ft, a) && PassOf(e, ks, false, ft, b)
    ensures forall x :: x in a + b ==> x.path in ks && EntityOf(x.path, e[x.path], ft) == Some(x)
    ensures forall k :: k in ks ==> exists x :: x in a + b && x.path == k
    ensures forall i, j :: 0 <= i < j < |a + b| ==> (a + b)[i].path != (a + b)[j].path
  {
    hide EntityOf;
    forall k | k in ks ensures exists x :: x in a + b && x.path == k {
      if e[k].isDefault {
        var x :| x in a && x.path == k;
        assert x in a + b;
      } else {
        var x :| x in b && x.path == k;
        assert x in a + b;
      }
    }
    forall i, j | 0 <= i < j < |a + b| ensures (a + b)[i].path != (a + b)[j].path {
      if i < |a| <= j { assert a[i] in a && b[j - |a|] in b; }
    }
  }

  /** The enumerated keys are the texts of the leaf paths. */
  lemma KeysAreLeaves(t: Tree)
    requires Named(t)
    ensures forall k :: k in SortedKeys(Enum(t, "").Keys) <==> k in Enum(t, "")
    ensures forall p :: IsLeaf(t, p) ==>
            Exists(t, p) && Join(p) in Enum(t, "") && Enum(t, "")[Join(p)] == Lookup(t, p).value
    ensures forall k :: k in Enum(t, "") ==> exists p :: IsLeaf(t, p) && k == Join(p)
  {
    hide IsLeaf, Named, Enum, Lookup, Exists;
    EnumIsLeafs(t);
    forall p | IsLeaf(t, p) ensures Exists(t, p) { LeafExists(t, p); }
  }

  lemma ListedIfReadable(t: Tree, ft: FloatText)
    requires Named(t)
    ensures Listed(t, ft).Some? <==> forall p :: IsLeaf(t, p) ==> EntityOf(Join(p), Lookup(t, p).value, ft).Some?
  {
    hide EntityOf, IsLeaf, Named, Enum, Pass, Lookup, PassOf;
    var e := Enum(t, "");
    KeysAreLeaves(t);
    PassSpec(e, SortedKeys(e.Keys), true, ft);
    PassSpec(e, SortedKeys(e.Keys), false, ft);
  }

  lemma ListedCovers(t: Tree, ft: FloatText)
    requires Named(t) && Listed(t, ft).Some?
    ensures Covers(t, ft, Listed(t, ft).value)
  {
    hide EntityOf, IsLeaf, Named, Enum, SortedKeys, Pass, PassOf, Lookup;
    var e := Enum(t, "");
    var ks := SortedKeys(e.Keys);
    KeysAreLeaves(t);
    PassSpec(e, ks, true, ft);
    PassSpec(e, ks, false, ft);
    var a, b := Pass(e, ks, true, ft).value, Pass(e, ks, false, ft).value;
    TwoPasses(e, ks, ft, a, b);
    EntitiesCover(t, e, ft, a + b);
  }

  lemma EntitiesCover(t: Tree, e: map<string, Tree>, ft: FloatText, es: seq<Entity>)
    requires forall p :: IsLeaf(t, p) ==> Exists(t, p) && Join(p) in e && e[Join(p)] == Lookup(t, p).value
    requires forall k :: k in e ==> exists p :: IsLeaf(t, p) && k == Join(p)
    requires forall x :: x in es ==> x.path in e && EntityOf(x.path, e[x.path], ft) == Some(x)
    requires forall k :: k in e ==> exists x :: x in es && x.path == k
    requires forall i, j :: 0 <= i < j < |es| ==> es[i].path != es[j].path
    ensures Covers(t, ft, es)
  {
    hide EntityOf, IsLeaf, Lookup, Join;
    forall x | x in es ensures exists p :: EntityAt(t, p, ft, x) {
      var p :| IsLeaf(t, p) && x.path == Join(p);
      assert EntityAt(t, p, ft, x);
    }
    forall p | IsLeaf(t, p) ensures exists x :: x in es && EntityAt(t, p, ft, x) {
      var x: Entity :| x in es && x.path == Join(p);
      assert EntityAt(t, p, ft, x);
    }
  }

  /** The list for a subscriber holds one entity for every leaf; making it throws exactly if some leaf cannot
      be read as its first item suggests, or the list buffer has no room for the record of one. */
  lemma SentCovers(t: Tree, ft: FloatText)
    requires Named(t)
    ensures Listed(t, ft).Some? <==> forall p :: IsLeaf(t, p) ==> EntityOf(Join(p), Lookup(t, p).value, ft).Some?
    ensures Sent(t, ft).Some? <==> Listed(t, ft).Some? && HasRoom(Listed(t, ft).value)
    ensures Sent(t, ft).Some? ==> Covers(t, ft, Sent(t, ft).value)
  {
    hide Listed, HasRoom, Covers, EntityOf, IsLeaf, Named;
    ListedIfReadable(t, ft);
    if Listed(t, ft).Some? {
      ListedCovers(t, ft);
    }
  }

  ghost predicate PathsAscend(es: seq<Entity>) {
    forall i, j :: 0 <= i < j < |es| ==> Less(es[i].path, es[j].path)
  }

  lemma {:induction false} PassAscends(e: map<string, Tree>, ks: seq<string>, d: bool, ft: FloatText)
    requires (forall k :: k in ks ==> k in e) && forall i, j :: 0 <= i < j < |ks| ==> Less(ks[i], ks[j])
    requires Pass(e, ks, d, ft).Some?
    ensures PathsAscend(Pass(e, ks, d, ft).value)
    ensures forall x :: x in Pass(e, ks, d, ft).value ==> x.path in ks && x.isDefault == d
    decreases |ks|
  {
    hide ValuesRead, Less;
    if ks != [] {
      assert ks == [ks[0]] + ks[1..];
      PassAscends(e, ks[1..], d, ft);
    }
  }

  /** The order of the list: first the default values and then the others, both with ascending paths. */
  lemma SentInOrder(t: Tree, ft: FloatText) returns (n: nat)
    requires Sent(t, ft).Some?
    ensures var es := Sent(t, ft).value;
            && n <= |es| && (forall i :: 0 <= i < |es| ==> (es[i].isDefault <==> i < n))
            && PathsAscend(es[..n]) && PathsAscend(es[n..])
  {
    hide Pass, Less, Enum, HasRoom;
    var e := Enum(t, "");
    var ks := SortedKeys(e.Keys);
    PassAscends(e, ks, true, ft);
    PassAscends(e, ks, false, ft);
    var a, b := Pass(e, ks, true, ft).value, Pass(e, ks, false, ft).value;
    var es: seq<Entity> := a + b;
    assert es[..|a|] == a && es[|a|..] == b;
    forall i | 0 <= i < |es| ensures es[i].isDefault <==> i < |a| {
      if i < |a| { assert a[i] in a; } else { assert b[i - |a|] in b; }
    }
    n := |a|;
  }

  /** Whatever is readable is sent if no record has more than 1022 bytes, up to four gigabytes in all. */
  lemma SmallLeavesAreSent(t: Tree, ft: FloatText)
    requires Named(t) && Listed(t, ft).Some?
    requires forall e :: e in Listed(t, ft).value ==> RecordSize(e) <= 1022
    ensures Sent(t, ft).Some? <==> Total(RecordSizes(Listed(t, ft).value)) <= MAX_BUFFER
  {
    hide Listed, Named;
    var es := Listed(t, ft).value;
    forall n | n in RecordSizes(es) ensures n + ELEMENT_HEADER <= INITIAL_SIZE {
      var i :| 0 <= i < |es| && RecordSizes(es)[i] == n;
      assert es[i] in es;
    }
    SmallRecordsFit(RecordSizes(es));
  }

  /** A configuration with a single leaf is sent exactly if that can be read and makes a record of at most 2046
      bytes: a list of 478 numbers is refused. */
  lemma SingleLeafIsSent(t: Tree, p: Path, ft: FloatText)
    requires Named(t) && forall q :: IsLeaf(t, q) <==> q == p
    ensures Exists(t, p)
    ensures var e := EntityOf(Join(p), Lookup(t, p).value, ft);
            && (Sent(t, ft).Some? <==> e.Some? && RecordSize(e.value) <= 2046)
            && (e.Some? && !e.value.values.Strings? ==> (Sent(t, ft).Some? <==> Count(e.value.values) <= 477))
  {
    hide Listed, HasRoom, EntityOf, Named, IsLeaf, Join, Lookup, Exists;
    SentCovers(t, ft);
    LeafExists(t, p);
    if Listed(t, ft).Some? {
      ListedCovers(t, ft);
      var es := Listed(t, ft).value;
      OneEntity(t, p, ft, es);
      OneRecord(es[0]);
    }
  }

  lemma OneEntity(t: Tree, p: Path, ft: FloatText, es: seq<Entity>)
    requires (forall q :: IsLeaf(t, q) <==> q == p) && Covers(t, ft, es)
    ensures |es| == 1 && es == [es[0]] && EntityAt(t, p, ft, es[0])
  {
    hide EntityOf, IsLeaf, Lookup, Join;
    assert IsLeaf(t, p);
    var x :| x in es && EntityAt(t, p, ft, x);
    var k :| 0 <= k < |es| && es[k] == x;
    forall e | e in es ensures e == x {
      var i :| 0 <= i < |es| && es[i] == e;
      assert es[i].path == es[k].path;
    }
    assert es[0] in es && es[|es| - 1] in es;
    assert es[0].path == es[|es| - 1].path;
  }

  lemma OneRecord(e: Entity)
    ensures HasRoom([e]) <==> RecordSize(e) <= 2046
  {
    FirstRecordIsSmall(RecordSize(e));
    assert RecordSizes([e]) == [RecordSize(e)];
  }

  lemma LeafPath(t: Tree, p: Path)
    requires Named(t) && IsLeaf(t, p)
    ensures Split(Join(p)) == p && p != []
  {
    LeafPathProper(t, p);
    SplitJoin(p);
  }

  lemma LeavesApart(t: Tree, p: Path, q: Path)
    requires IsLeaf(t, p) && IsLeaf(t, q) && p != q
    ensures Apart(p, q)
  {
    if p <= q { PrefixFree(t, p, q); }
    if q <= p { PrefixFree(t, q, p); }
  }

  lemma CoversApart(t: Tree, ft: FloatText, es: seq<Entity>)
    requires Named(t) && Covers(t, ft, es)
    ensures AllApart(map[], es)
  {
    hide Named, IsLeaf, Split, Join, EntityOf, Apart, Shape;
    forall e | e in es ensures Shape(e) && Split(e.path) != [] {
      var p :| EntityAt(t, p, ft, e);
      LeafPath(t, p);
      LeafExists(t, p);
      EntityShape(e.path, Lookup(t, p).value, ft);
    }
    forall i, j | 0 <= i < j < |es| ensures Apart(Split(es[i].path), Split(es[j].path)) {
      assert es[i] in es && es[j] in es;
      var p :| EntityAt(t, p, ft, es[i]);
      var q :| EntityAt(t, q, ft, es[j]);
      LeafPath(t, p);
      LeafPath(t, q);
      LeavesApart(t, p, q);
    }
  }

  // ---- What the client reads ----

  lemma UintsStored(us: seq<Uint32>, ft: FloatText)
    ensures AllUints(TextsOf(Uints(us), ft)) == Some(us)
  {
    hide AsUint, PrintNat;
    var ts := TextsOf(Uints(us), ft);
    forall i | 0 <= i < |us| ensures AsUint(ts[i]) == Some(us[i]) { UintRoundTrip(us[i]); }
    assert AllUints(ts).value == us;
  }

  lemma IntsStored(is': seq<Int32>, ft: FloatText)
    ensures AllInts(TextsOf(Ints(is'), ft)) == Some(is')
  {
    hide AsInt, PrintInt;
    var ts := TextsOf(Ints(is'), ft);
    forall i | 0 <= i < |is'| ensures AsInt(ts[i]) == Some(is'[i]) { IntRoundTrip(is'[i]); }
    assert AllInts(ts).value == is';
  }

  lemma BoolsStored(bs: seq<bool>, ft: FloatText)
    ensures AllBools(TextsOf(Bools(bs), ft)) == Some(bs)
  {
    hide AsBool, PrintBool;
    var ts := TextsOf(Bools(bs), ft);
    forall i | 0 <= i < |bs| ensures AsBool(ts[i]) == Some(bs[i]) { BoolRoundTrip(bs[i]); }
    assert AllBools(ts).value == bs;
  }

  /** Floating-point values that come back when they are printed and read again. */
  predicate Reprinted(v: Values, ft: FloatText) {
    v.Floats? ==> forall b :: b in v.bits ==> IsFloat(ft.show(b)) && ft.parse(ft.show(b)) == b
  }

  lemma FloatsStored(fs: seq<Uint32>, ft: FloatText)
    ensures AllFloats(TextsOf(Floats(fs), ft), ft) == Some(fs) <==> Reprinted(Floats(fs), ft)
  {
    hide IsFloat;
    var ts := TextsOf(Floats(fs), ft);
    if Reprinted(Floats(fs), ft) {
      forall i | 0 <= i < |fs| ensures IsFloat(ts[i]) && ft.parse(ts[i]) == fs[i] { assert fs[i] in fs; }
      assert AllFloats(ts, ft).value == fs;
    } else {
      var b :| b in fs && !(IsFloat(ft.show(b)) && ft.parse(ft.show(b)) == b);
      var i :| 0 <= i < |fs| && fs[i] == b;
      assert ts[i] == ft.show(b);
      if AllFloats(ts, ft).Some? { assert AllFloats(ts, ft).value[i] == ft.parse(ts[i]); }
    }
  }

  lemma TextsRead(n: Tree, v: Values, ft: FloatText)
    requires ItemsOf(n) == TextsOf(v, ft)
    ensures Reads(n, v, ft) <==> Reprinted(v, ft)
  {
    match v
    case Uints(us) => UintsStored(us, ft);
    case Ints(is') => IntsStored(is', ft);
    case Bools(bs) => BoolsStored(bs, ft);
    case Strings(ss) =>
    case Floats(fs) => FloatsStored(fs, ft);
  }

  /** A text that is sent as a string is none that reads as a truth value. */
  lemma SentStringIsNotTrue(n: Tree, ft: FloatText)
    requires n.kind != SEQUENCE && EntityOf("", n, ft).Some? && EntityOf("", n, ft).value.values.Strings?
    ensures n.scalar != PrintBool(true)
  {
    hide AsUint, AsInt, IsFloat, AsBool;
    WordBool(true);
    assert ItemsOf(n) == [n.scalar];
  }

  predicate Terminated(e: Entity) {
    e.values.Strings? ==> forall s :: s in e.values.strings ==> NUL !in s
  }

  /** The client reads, with the accessor of the same type, the same value or list that the server reads, unless it
      is a default value that is a string, or floating-point values that do not survive being printed. */
  lemma StoredReads(path: string, n: Tree, ft: FloatText)
    requires EntityOf(path, n, ft).Some? && Terminated(EntityOf(path, n, ft).value)
    ensures var e := EntityOf(path, n, ft).value;
            && Reads(n, e.values, ft)
            && (Reads(Stored(e, ft), e.values, ft) <==>
               !(e.isDefault && !e.isList && e.values.Strings?) && Reprinted(e.values, ft))
            && (Stored(e, ft).kind == SEQUENCE <==> n.kind == SEQUENCE)
            && Stored(e, ft).isDefault == (n.isDefault && n.kind != SEQUENCE)
  {
    hide AsUint, AsInt, IsFloat, AsBool, ScalarKind, Split;
    EntityShape(path, n, ft);
    var e := EntityOf(path, n, ft).value;
    var m := Stored(e, ft);
    if e.isList {
      TextsRead(m, e.values, ft);
    } else if e.values.Strings? {
      var text := n.scalar;
      assert e.values.strings == [text] && e.values.strings[0] == text;
      LengthIs(text);
      TakeAll(text);
      SentStringIsNotTrue(n, ft);
      assert m.scalar == if e.isDefault then PrintBool(true) else text;
      assert ItemsOf(m) == [m.scalar] && ItemsOf(m)[0] == m.scalar;
    } else {
      assert ItemsOf(m) == TextsOf(e.values, ft);
      TextsRead(m, e.values, ft);
    }
  }

  /** The texts that the client holds for a node. */
  lemma StoredTexts(path: string, n: Tree, ft: FloatText)
    requires EntityOf(path, n, ft).Some? && Terminated(EntityOf(path, n, ft).value)
    ensures var e := EntityOf(path, n, ft).value;
            && (Stored(e, ft).kind == SEQUENCE <==> n.kind == SEQUENCE)
            && Stored(e, ft).isDefault == (n.isDefault && n.kind != SEQUENCE)
            && ItemsOf(Stored(e, ft)) ==
               if e.isDefault && !e.isList && e.values.Strings? then ["true"] else TextsOf(e.values, ft)
  {
    hide AsUint, AsInt, IsFloat, AsBool, ScalarKind, Split;
    EntityShape(path, n, ft);
    var e := EntityOf(path, n, ft).value;
    if !e.isList && e.values.Strings? {
      assert e.values.strings == [n.scalar] && e.values.strings[0] == n.scalar;
      LengthIs(n.scalar);
      TakeAll(n.scalar);
    }
  }

  /** A text with a terminator inside is stored up to it. */
  lemma StoredUpToTerminator(path: string, n: Tree, before: string, after: string, ft: FloatText)
    requires EntityOf(path, n, ft).Some? && EntityOf(path, n, ft).value.values.Strings?
    requires n.kind != SEQUENCE && !n.isDefault && n.scalar == before + [NUL] + after && NUL !in before
    ensures Shape(EntityOf(path, n, ft).value) && Stored(EntityOf(path, n, ft).value, ft).scalar == before
  {
    hide AsUint, AsInt, IsFloat, AsBool, ScalarKind, Split;
    EntityShape(path, n, ft);
    var e := EntityOf(path, n, ft).value;
    assert e.values.strings == [n.scalar] && e.values.strings[0] == n.scalar;
    LengthUpTo(before, after);
    assert n.scalar[..|before|] == before;
  }

  lemma {:induction false} LengthUpTo(before: string, after: string)
    requires NUL !in before
    ensures Length(before + [NUL] + after) == |before|
  {
    var s := before + [NUL] + after;
    if before != "" {
      LengthUpTo(before[1..], after);
      assert s[1..] == before[1..] + [NUL] + after;
    }
  }

  predicate OnlyFloat(s: string) {
    AsUint(s).None? && AsInt(s).None? && AsBool(s).None? && IsFloat(s)
  }

  predicate OnlyText(s: string) {
    AsUint(s).None? && AsInt(s).None? && AsBool(s).None? && !IsFloat(s)
  }

  /** The texts of the mirror read like those of the server with every accessor: as unsigned numbers, as numbers and
      as truth values; as floats that survive being printed; and as texts. */
  ghost predicate TextsAlike(a: seq<string>, b: seq<string>, ft: FloatText) {
    && (a == [] ==> b == [])
    && (a != [] && AllUints(a).Some? ==> AllUints(b) == AllUints(a))
    && (a != [] && AllInts(a).Some? ==> AllInts(b) == AllInts(a))
    && (a != [] && AllBools(a).Some? ==> AllBools(b) == AllBools(a))
    && (a != [] && OnlyFloat(a[0]) ==>
       && AllFloats(a, ft).Some?
       && (AllFloats(b, ft) == AllFloats(a, ft) <==> Reprinted(Floats(AllFloats(a, ft).value), ft)))
    && (a != [] && OnlyText(a[0]) ==> b == a)
  }

  /** Numbers that both integer accessors read are printed the same. */
  lemma IntsOfUints(a: seq<string>, us: seq<Uint32>, ft: FloatText)
    requires AllUints(a) == Some(us) && AllInts(a).Some?
    ensures TextsOf(Uints(us), ft) == TextsOf(Ints(AllInts(a).value), ft)
  {
    hide AsUint, AsInt;
    forall i | 0 <= i < |a| ensures us[i] == AllInts(a).value[i] { BothAccessors(a[i]); }
  }

  lemma SentTextsAlike(a: seq<string>, v: Values, ft: FloatText)
    requires ValuesRead(a, ft) == Some(v)
    ensures TextsAlike(a, TextsOf(v, ft), ft)
  {
    hide AsUint, AsInt, AsBool, IsFloat, Reprinted;
    if a != [] {
      if AsBool(a[0]).Some? { TruthNoInteger(a[0]); }
      match v
      case Uints(us) =>
        UintsStored(us, ft);
        if AllInts(a).Some? {
          IntsOfUints(a, us, ft);
          IntsStored(AllInts(a).value, ft);
        }
      case Ints(is') => IntsStored(is', ft);
      case Bools(bs) => BoolsStored(bs, ft);
      case Floats(fs) => FloatsStored(fs, ft);
      case Strings(ss) =>
    }
  }

  /** What becomes readable at all: the accessor that reads the first item has to read all of them. */
  lemma ReadableExactly(path: string, n: Tree, ft: FloatText)
    ensures var a := ItemsOf(n);
            EntityOf(path, n, ft).Some? <==>
            || a == [] || AllUints(a).Some? || (AsUint(a[0]).None? && AllInts(a).Some?) || AllBools(a).Some?
            || (OnlyFloat(a[0]) && AllFloats(a, ft).Some?) || OnlyText(a[0])
  {
    hide AsUint, AsInt, AsBool, IsFloat;
    var a := ItemsOf(n);
    if a != [] && AsBool(a[0]).Some? { TruthNoInteger(a[0]); }
  }

  /** The record of a leaf, byte by byte: its type is that of the accessor that reads the first item, in the order
      unsigned int, int, bool, float and string, and its words are what that accessor reads. */
  lemma RecordOfLeaf(path: string, n: Tree, b: seq<Byte>, j: nat, ft: FloatText)
    requires EntityOf(path, n, ft).Some? && Represents(b, EntityOf(path, n, ft).value) && j < |ItemsOf(n)|
    ensures |b| > 136
    ensures var first, s := ItemsOf(n)[0], ItemsOf(n)[j];
            if AsUint(first).Some? then b[132] == 31 && AsUint(s).Some? && WordBytes(b, 136 + 4 * j, AsUint(s).value)
            else if AsInt(first).Some? then
              b[132] == 32 && AsInt(s).Some? && WordBytes(b, 136 + 4 * j, AsInt(s).value % 0x1_0000_0000)
            else if AsBool(first).Some? then
              b[132] == 33 && AsBool(s).Some? && WordBytes(b, 136 + 4 * j, if AsBool(s).value then 1 else 0)
            else if IsFloat(first) then b[132] == 30 && IsFloat(s) && WordBytes(b, 136 + 4 * j, ft.parse(s))
            else b[132] == 34 && EntityOf(path, n, ft).value.values == Strings(ItemsOf(n))
    ensures HeaderBytes(b, path, n.isDefault, if n.kind == SEQUENCE then |n.items| else 0)
  {
    hide AsUint, AsInt, AsBool, IsFloat, StringFields, HeaderBytes, WordBytes;
    var e := EntityOf(path, n, ft).value;
    RecordHeader(b, e);
    EntityShape(path, n, ft);
    if !e.values.Strings? { RecordWord(b, e, j); }
  }

  /** An empty list is sent as one of unsigned numbers. */
  lemma RecordOfEmptyList(path: string, n: Tree, b: seq<Byte>, ft: FloatText)
    requires n.kind == SEQUENCE && n.items == []
    ensures EntityOf(path, n, ft).Some?
    ensures Represents(b, EntityOf(path, n, ft).value) ==>
            |b| == 136 && b[132] == 31 && HeaderBytes(b, path, n.isDefault, 0)
  {
    hide HeaderBytes;
    var e := EntityOf(path, n, ft).value;
    assert e.values == Uints([]);
    if Represents(b, e) { RecordHeader(b, e); }
  }

  /** A default value that is the string x is stored, and read back, as true. */
  lemma DefaultStringIsTrue(ft: FloatText)
    ensures var n := Tree("l", STRING, "x", [], true, map[]);
            && EntityOf("/l", n, ft).Some?
            && var e := EntityOf("/l", n, ft).value;
            Shape(e) && Reads(n, e.values, ft) && Stored(e, ft).scalar == "true" && !Reads(Stored(e, ft), e.values, ft)
  {
    hide AsUint, AsInt, IsFloat, AsBool, ScalarKind, Split, Reads;
    var n := Tree("l", STRING, "x", [], true, map[]);
    TextKinds();
    TypeIsFirstReader("x");
    assert ItemsOf(n) == ["x"];
    EntityShape("/l", n, ft);
    StoredReads("/l", n, ft);
  }

  // ---- Over the wire ----

  /** The list loop of inbound_received over the first n records in the bytes of a message. A set that throws
      ends the program, since inbound_received must not throw; what is too short is read past its end. */
  function TakeIn(t: Tree, b: seq<Byte>, n: nat, ft: FloatText): Outcome
    decreases n
  {
    if n == 0 then Outcome(t, true)
    else if First(b).None? then Outcome(t, false)
    else
      match Decode(First(b).value)
      case OutOfBounds => Outcome(t, false)
      case Ignored => TakeIn(t, Rest(b), n - 1, ft)
      case Got(e) =>
        var r := Receive(t, e, ft);
        if r.ok then TakeIn(r.tree, Rest(b), n - 1, ft) else r
  }

  /** What fits into a record: a path of fewer than 128 characters, a list that is not empty and has fewer than
      65536 items, strings without a terminator inside and shorter than 65536. */
  ghost predicate Transmittable(e: Entity) {
    && Texts(e) && FitsCount(e)
    && NUL !in e.path && |e.path| < PATH_LENGTH
    && (e.values.Strings? ==> forall s :: s in e.values.strings ==> Sendable(s))
  }

  lemma RecordRead(b: seq<Byte>, e: Entity)
    requires Represents(b, e) && Transmittable(e)
    ensures Decode(b) == Got(e)
  {
    hide Represents, Decode, IsText;
    PathKept(e);
    if e.values.Strings? {
      StringsRoundTrip(b, e);
    } else {
      NumbersRoundTrip(b, e);
    }
  }

  lemma PathKept(e: Entity)
    requires Transmittable(e)
    ensures Received(e) == e && Terminated(e)
  {
    ShortenedText(e.path);
  }

  ghost predicate RepresentAll(records: seq<seq<Byte>>, es: seq<Entity>) {
    |records| == |es| && forall i :: 0 <= i < |es| ==> Represents(records[i], es[i])
  }

  lemma {:induction false} TakeInReceives(t: Tree, records: seq<seq<Byte>>, es: seq<Entity>, n: nat, ft: FloatText)
    requires RepresentAll(records, es) && (forall e :: e in es ==> Transmittable(e))
             && (forall e :: e in es ==> Shape(e))
    requires Packable(records) && n <= |es|
    ensures TakeIn(t, Packed(records), n, ft) == ReceiveAll(t, es[..n], ft)
    decreases n
  {
    hide Represents, Transmittable, Decode, Receive, Shape, First, Rest;
    if n > 0 {
      assert es[0] in es;
      RecordRead(records[0], es[0]);
      FirstPacked(records[0], Packed(records[1..]));
      assert es[..n][0] == es[0] && es[..n][1..] == es[1..][..n - 1];
      var r := Receive(t, es[0], ft);
      if r.ok { TakeInReceives(r.tree, records[1..], es[1..], n - 1, ft); }
    }
  }

  /** A record of a type that nobody knows is passed over. */
  lemma UnknownSkipped(t: Tree, b: seq<Byte>, records: seq<seq<Byte>>, n: nat, ft: FloatText)
    requires Packable([b] + records) && |b| >= 136 && 0 in b && !(30 <= b[132] <= 34)
    ensures Packable(records)
    ensures TakeIn(t, Packed([b] + records), n + 1, ft) == TakeIn(t, Packed(records), n, ft)
  {
    hide Decode, First, Rest;
    var all := [b] + records;
    assert all[0] == b && all[1..] == records && forall r :: r in records ==> r in all;
    IgnoredExactly(b);
    FirstPacked(b, Packed(records));
  }

  lemma RecordsFit(records: seq<seq<Byte>>, es: seq<Entity>)
    requires RepresentAll(records, es)
    ensures Sizes(records) == RecordSizes(es)
    ensures HasRoom(es) ==> Packable(records)
  {
    hide Represents, RecordSize, Grown, Packable;
    forall i | 0 <= i < |es| ensures |records[i]| == RecordSize(es[i]) { RecordLength(records[i], es[i]); }
    assert Sizes(records) == RecordSizes(es);
    if HasRoom(es) {
      GrownBounds(Sizes(records));
      SmallSizes(records);
    }
  }

  lemma RecordLength(b: seq<Byte>, e: Entity)
    requires Represents(b, e)
    ensures |b| == RecordSize(e)
  {
  }

  lemma SmallSizes(records: seq<seq<Byte>>)
    requires forall n :: n in Sizes(records) ==> n <= MAX_ELEMENT
    ensures Packable(records)
  {
    forall r | r in records ensures |r| <= MAX_ELEMENT {
      var i :| 0 <= i < |records| && records[i] == r;
      assert Sizes(records)[i] in Sizes(records);
    }
  }

  /** The leaf of the mirror reads like the leaf of the server with every accessor, but for a single text that is a
      default value, which reads as true, and for floating-point values that printing changes. */
  ghost predicate SameReading(n: Tree, c: Tree, ft: FloatText) {
    && (if n.isDefault && n.kind != SEQUENCE && OnlyText(n.scalar) then c.scalar == "true"
        else TextsAlike(ItemsOf(n), ItemsOf(c), ft))
    && (c.kind == SEQUENCE <==> n.kind == SEQUENCE)
    && c.isDefault == (n.isDefault && n.kind != SEQUENCE)
  }

  lemma EmptyHolds()
    ensures Holding(NewRoot(), map[])
  {
  }

  /** Every leaf of the mirror is a leaf of the server and reads the same. */
  ghost predicate Mirrors(t: Tree, m: Tree, ft: FloatText) {
    forall p :: IsLeaf(m, p) ==> IsLeaf(t, p) && SameReading(Lookup(t, p).value, Lookup(m, p).value, ft)
  }

  ghost predicate HasLeavesOf(m: Tree, t: Tree) {
    forall p :: IsLeaf(t, p) ==> IsLeaf(m, p)
  }

  /** Subscribing mirrors the server: whatever records represent the list it sends, the client takes them in
      without a set that throws or a read out of bounds, and each of its leaves reads like the leaf of the
      server at the same path. It gets all the leaves exactly if there are fewer than 65536, since the number of
      records is counted in 16 bits. */
  lemma SubscribeMirrors(t: Tree, records: seq<seq<Byte>>, ft: FloatText)
    requires Named(t) && Sent(t, ft).Some? && RepresentAll(records, Sent(t, ft).value)
    requires forall e :: e in Sent(t, ft).value ==> Transmittable(e)
    ensures Packable(records)
    ensures var r := TakeIn(NewRoot(), Packed(records), |records| % 65536, ft);
            r.ok && Mirrors(t, r.tree, ft) && (HasLeavesOf(r.tree, t) <==> |Sent(t, ft).value| < 65536)
  {
    hide Named, Listed, Sent, Covers, RepresentAll, Transmittable, AllApart, TakeIn, ReceiveAll, Shape, Mirrors,
         HasLeavesOf, HasRoom, Packable, Packed;
    var es := Sent(t, ft).value;
    SentCovers(t, ft);
    CoversApart(t, ft, es);
    ShapesOf(map[], es);
    SentSize(t, records, ft);
    TakeInReceives(NewRoot(), records, es, |es| % 65536, ft);
    FirstMirrored(t, es, |es| % 65536, ft);
  }

  lemma FirstMirrored(t: Tree, es: seq<Entity>, n: nat, ft: FloatText)
    requires Named(t) && Covers(t, ft, es) && AllApart(map[], es) && n <= |es|
    requires (forall e :: e in es ==> Transmittable(e)) && (forall e :: e in es ==> Shape(e))
    ensures var r := ReceiveAll(NewRoot(), es[..n], ft);
            r.ok && Mirrors(t, r.tree, ft) && (HasLeavesOf(r.tree, t) <==> n == |es|)
  {
    hide Named, Covers, Transmittable, AllApart, Holding, StoredAll, ReceiveAll, Shape, IsLeaf, SameReading;
    FirstApart(es, n);
    EmptyHolds();
    ReceiveAllHolding(NewRoot(), map[], es[..n], ft);
    var m := ReceiveAll(NewRoot(), es[..n], ft).tree;
    forall p | IsLeaf(m, p)
        ensures IsLeaf(t, p) && Exists(t, p) && Exists(m, p)
                && SameReading(Lookup(t, p).value, Lookup(m, p).value, ft) {
      MirroredAt(t, m, es, n, p, ft);
    }
    AllMirrored(t, m, es, n, ft);
  }

  lemma SentSize(t: Tree, records: seq<seq<Byte>>, ft: FloatText)
    requires Sent(t, ft).Some? && RepresentAll(records, Sent(t, ft).value)
    ensures Packable(records) && |records| == |Sent(t, ft).value|
  {
    hide Listed, HasRoom, Packable;
    RecordsFit(records, Sent(t, ft).value);
  }

  lemma FirstApart(es: seq<Entity>, n: nat)
    requires AllApart(map[], es) && n <= |es|
    ensures AllApart(map[], es[..n])
  {
    forall e | e in es[..n] ensures e in es { TakeAll(es); }
  }

  lemma MirroredAt(t: Tree, m: Tree, es: seq<Entity>, n: nat, p: Path, ft: FloatText)
    requires Named(t) && Covers(t, ft, es) && (forall e :: e in es ==> Transmittable(e)) && n <= |es|
    requires (forall e :: e in es[..n] ==> Shape(e)) && AllApart(map[], es[..n])
             && Holding(m, StoredAll(map[], es[..n], ft))
    requires IsLeaf(m, p)
    ensures IsLeaf(t, p) && Exists(t, p) && Exists(m, p) && SameReading(Lookup(t, p).value, Lookup(m, p).value, ft)
  {
    hide Named, Transmittable, AllApart, StoredAll, Shape, Split, IsLeaf, SameReading, Stored, EntityOf;
    StoredAllKeys(map[], es[..n], ft);
    var e :| e in es[..n] && Split(e.path) == p;
    assert e in es;
    var q :| EntityAt(t, q, ft, e);
    LeafPath(t, q);
    LeafExists(t, p);
    PathKept(e);
    SameReadingAt(e.path, Lookup(t, p).value, ft);
  }

  /** The first entities stand for all leaves exactly if they are all of them. */
  lemma AllMirrored(t: Tree, m: Tree, es: seq<Entity>, n: nat, ft: FloatText)
    requires Named(t) && Covers(t, ft, es) && n <= |es|
    requires (forall e :: e in es[..n] ==> Shape(e)) && AllApart(map[], es[..n])
             && Holding(m, StoredAll(map[], es[..n], ft))
    ensures (forall p :: IsLeaf(t, p) ==> IsLeaf(m, p)) <==> n == |es|
  {
    hide Named, AllApart, StoredAll, Shape, Split, IsLeaf, EntityOf, Join;
    StoredAllKeys(map[], es[..n], ft);
    if n == |es| {
      TakeAll(es);
      forall p | IsLeaf(t, p) ensures IsLeaf(m, p) {
        LeafPath(t, p);
        var e :| e in es && EntityAt(t, p, ft, e);
        assert e in es[..n];
      }
    } else {
      assert es[n] in es;
      var p :| EntityAt(t, p, ft, es[n]);
      LeafPath(t, p);
      if IsLeaf(m, p) {
        NotAmongFirst(t, es, n, p, ft);
        assert false;
      }
    }
  }

  lemma NotAmongFirst(t: Tree, es: seq<Entity>, n: nat, p: Path, ft: FloatText)
    requires Named(t) && Covers(t, ft, es) && n < |es| && EntityAt(t, p, ft, es[n])
    ensures forall e :: e in es[..n] ==> Split(e.path) != p
  {
    hide Named, Split, IsLeaf, EntityOf, Join;
    forall e | e in es[..n] ensures Split(e.path) != p {
      var i :| 0 <= i < n && es[i] == e;
      assert es[i] in es;
      var q :| EntityAt(t, q, ft, es[i]);
      LeafPath(t, q);
      LeafPath(t, p);
    }
  }

  lemma SameReadingAt(path: string, n: Tree, ft: FloatText)
    requires EntityOf(path, n, ft).Some? && Terminated(EntityOf(path, n, ft).value)
    ensures Shape(EntityOf(path, n, ft).value) && SameReading(n, Stored(EntityOf(path, n, ft).value, ft), ft)
  {
    hide AsUint, AsInt, AsBool, IsFloat, Stored, TextsAlike;
    EntityShape(path, n, ft);
    var e := EntityOf(path, n, ft).value;
    StoredTexts(path, n, ft);
    SentTextsAlike(ItemsOf(n), e.values, ft);
  }
}
