/** The two ends of mirroring as they run: MemoryConfiguration (src/libs/config/memory.cpp) over nodes on the
    heap, the list a subscriber is sent (src/libs/config/net_handler.cpp,
    src/libs/config/net_list_content.cpp) and the loop that takes it in (src/libs/config/netconf.cpp). */
module MemoryConfig {
  import opened Paths
  import opened ScalarText
  import opened ConfigTree
  import opened LeafDiff
  import opened NetCodec
  import opened ListBuffer
  import opened YamlNode
  import opened Mirror
  import opened MapFacts

  // ---- The server ----

  /** The values that append reads from the node the iterator is at; none where that throws. */
  function ValuesOfNode(n: YamlConfigurationNode, ft: FloatText): Option<Values>
    reads n
  {
    ValuesRead(if n.kind == SEQUENCE then n.items else [n.scalar], ft)
  }

  class ConfigListContent {
    var configList: DynamicBuffer
    /** The records that are packed in the buffer. */
    ghost var records: seq<seq<Byte>>

    ghost predicate Valid()
      reads this, configList
    {
      && Packable(records) && configList.buffer == Packed(records) && configList.numElements == |records| % 65536
      && !configList.readOnly && Grown(Sizes(records)) == Some(configList.bufferSize)
    }

    constructor ()
      ensures Valid() && records == [] && fresh(configList)
    {
      configList := new DynamicBuffer(INITIAL_SIZE);
      records := [];
      new;
      assert Sizes([]) == [];
    }

    /** append, for an iterator at a node; false where it throws. */
    method Append(path: string, n: YamlConfigurationNode, ft: FloatText, ghost t: Tree, ghost es: seq<Entity>)
        returns (ok: bool)
      requires n.kind == t.kind && n.scalar == t.scalar && n.items == t.items && n.isDefault == t.isDefault
      requires EntityOf(path, t, ft).Some? ==> Texts(EntityOf(path, t, ft).value)
      requires Valid() && RepresentAll(records, es)
      modifies this`records, configList`buffer, configList`bufferSize, configList`numElements
      ensures ok <==> EntityOf(path, t, ft).Some? && HasRoom(es + [EntityOf(path, t, ft).value])
      ensures !ok ==> records == old(records) && configList.buffer == old(configList.buffer)
      ensures ok ==> Valid() && RepresentAll(records, es + [EntityOf(path, t, ft).value])
    {
      hide Represents, ValuesRead, Texts, RepresentAll, Packed, Packable, HasRoom, Sizes, Grown;
      var v := ValuesOfNode(n, ft);
      if v.None? {
        return false;
      }
      var e := Entity(path, n.isDefault, n.kind == SEQUENCE, v.value);
      var data := NetCodec.Append(e);
      ok := AppendRecord(data[..], es, e);
    }

    /** The record goes to the list buffer. */
    method AppendRecord(data: seq<Byte>, ghost es: seq<Entity>, ghost e: Entity) returns (ok: bool)
      requires Valid() && RepresentAll(records, es) && Represents(data, e)
      modifies this`records, configList`buffer, configList`bufferSize, configList`numElements
      ensures ok <==> HasRoom(es + [e])
      ensures !ok ==> records == old(records) && configList.buffer == old(configList.buffer)
      ensures ok ==> Valid() && RepresentAll(records, es + [e])
    {
      hide Represents, RepresentAll, Packed, Packable, Added, HasRoom, Sizes, Grown, Element, Total;
      RoomForOne(records, es, data, e);
      PackedSize(records);
      ok := configList.Append(data);
      if ok {
        PackedMore(records, data);
        RepresentMore(records, es, data, e);
        records := records + [data];
      }
    }
  }

  /** Whether the buffer has room is decided by the entities that the records represent. */
  lemma RoomForOne(records: seq<seq<Byte>>, es: seq<Entity>, data: seq<Byte>, e: Entity)
    requires RepresentAll(records, es) && Represents(data, e)
    ensures Sizes(records + [data]) == Sizes(records) + [|data|]
    ensures Grown(Sizes(records + [data])) ==
            if Grown(Sizes(records)).None? then None
                else Added(Total(Sizes(records)), Grown(Sizes(records)).value, |data|)
    ensures HasRoom(es + [e]) <==> Grown(Sizes(records + [data])).Some?
  {
    hide Represents, Grown, Added;
    RepresentMore(records, es, data, e);
    RecordsFit(records + [data], es + [e]);
    SizesMore(records, data);
    GrownMore(Sizes(records), |data|);
  }

  lemma NoRoomForMore(es: seq<Entity>, more: seq<Entity>)
    requires !HasRoom(es)
    ensures !HasRoom(es + more)
  {
    assert RecordSizes(es + more) == RecordSizes(es) + RecordSizes(more);
    NoRoomLater(RecordSizes(es), RecordSizes(more));
  }

  ghost predicate TextsAll(e: map<string, Tree>, ft: FloatText) {
    forall k :: k in e && EntityOf(k, e[k], ft).Some? ==> Texts(EntityOf(k, e[k], ft).value)
  }

  lemma RepresentMore(records: seq<seq<Byte>>, es: seq<Entity>, b: seq<Byte>, x: Entity)
    requires RepresentAll(records, es) && Represents(b, x)
    ensures RepresentAll(records + [b], es + [x])
  {
  }

  lemma PassStep(e: map<string, Tree>, ks: seq<string>, i: nat, d: bool, ft: FloatText, es: seq<Entity>)
    requires i < |ks| && forall k :: k in ks ==> k in e
    ensures var k := ks[i];
            Prepended(es, Pass(e, ks[i..], d, ft)) ==
            if e[k].isDefault != d then Prepended(es, Pass(e, ks[i + 1..], d, ft))
            else if EntityOf(k, e[k], ft).None? then None
            else Prepended(es + [EntityOf(k, e[k], ft).value], Pass(e, ks[i + 1..], d, ft))
  {
    hide EntityOf;
    assert ks[i..][0] == ks[i] && ks[i..][1..] == ks[i + 1..];
    if e[ks[i]].isDefault == d && EntityOf(ks[i], e[ks[i]], ft).Some? {
      PrependMore(es, EntityOf(ks[i], e[ks[i]], ft).value, Pass(e, ks[i + 1..], d, ft));
    }
  }

  lemma PassStart(e: map<string, Tree>, ks: seq<string>, d: bool, ft: FloatText)
    requires forall k :: k in ks ==> k in e
    ensures ks[0..] == ks && Prepended([], Pass(e, ks, d, ft)) == Pass(e, ks, d, ft)
    ensures forall es: seq<Entity> :: Prepended(es, Pass(e, ks[|ks|..], d, ft)) == Some(es)
  {
    assert ks[0..] == ks;
    PrependNothing(Pass(e, ks, d, ft));
    forall es: seq<Entity> ensures Prepended(es, Pass(e, ks[|ks|..], d, ft)) == Some(es) {
      PrependToEnd(es);
    }
  }

  /** One of the loops of the subscribe branch: append the leaves that have the given default flag. */
  method AppendPass(nodes: map<string, YamlConfigurationNode>, content: ConfigListContent, isDefault: bool,
                    ft: FloatText, ghost e: map<string, Tree>, ghost ns: set<YamlConfigurationNode>,
                    ghost sent: seq<Entity>)
    returns (ok: bool)
    requires Holds(nodes, e, ns) && TextsAll(e, ft) && content.Valid() && RepresentAll(content.records, sent)
    modifies content`records, content.configList`buffer, content.configList`bufferSize, content.configList`numElements
    ensures var p := Pass(e, SortedKeys(e.Keys), isDefault, ft);
            && (ok <==> p.Some? && HasRoom(sent + p.value))
            && (ok ==> content.Valid() && RepresentAll(content.records, sent + p.value))
  {
    hide SortedKeys, Pass, EntityOf, Represents, RepresentAll, TextsAll, Texts, HasRoom, Packed, Packable, Grown;
    var ks := SortedKeys(nodes.Keys);
    ghost var es: seq<Entity> := [];
    PassStart(e, ks, isDefault, ft);
    ConcatEmpty(sent);
    RoomSoFar(content.records, sent);
    var i := 0;
    while i < |ks|
      invariant 0 <= i <= |ks|
      invariant Pass(e, ks, isDefault, ft) == Prepended(es, Pass(e, ks[i..], isDefault, ft))
      invariant content.Valid() && RepresentAll(content.records, sent + es) && HasRoom(sent + es)
    {
      PassStep(e, ks, i, isDefault, ft, es);
      var k := ks[i];
      if nodes[k].isDefault == isDefault {
        TextsAt(e, k, ft);
        ok := content.Append(k, nodes[k], ft, e[k], sent + es);
        if !ok {
          if EntityOf(k, e[k], ft).Some? {
            NoRoomInPass(sent, es, EntityOf(k, e[k], ft).value, Pass(e, ks[i + 1..], isDefault, ft));
          }
          return;
        }
        ghost var x := EntityOf(k, e[k], ft).value;
        ConcatAssoc(sent, es, x);
        es := es + [x];
      }
      i := i + 1;
    }
    ok := true;
  }

  lemma RoomSoFar(records: seq<seq<Byte>>, es: seq<Entity>)
    requires RepresentAll(records, es) && Grown(Sizes(records)).Some?
    ensures HasRoom(es)
  {
    hide Grown;
    RecordsFit(records, es);
  }

  lemma NoRoomInPass(sent: seq<Entity>, es: seq<Entity>, x: Entity, rest: Option<seq<Entity>>)
    requires !HasRoom(sent + es + [x])
    ensures var all := Prepended(es + [x], rest); all.Some? ==> !HasRoom(sent + all.value)
  {
    if rest.Some? {
      assert sent + (es + [x] + rest.value) == sent + es + [x] + rest.value;
      NoRoomForMore(sent + es + [x], rest.value);
    }
  }

  lemma TextsAt(e: map<string, Tree>, k: string, ft: FloatText)
    requires TextsAll(e, ft) && k in e
    ensures EntityOf(k, e[k], ft).Some? ==> Texts(EntityOf(k, e[k], ft).value)
  {
  }

  lemma ConcatAssoc<T>(a: seq<T>, b: seq<T>, x: T)
    ensures a + (b + [x]) == a + b + [x]
  {
  }

  /** The subscribe branch of the network handler: two passes over all leaves, defaults first. */
  method Subscribe(root: YamlConfigurationNode, ghost s: YamlNode.Shape, ft: FloatText)
      returns (ok: bool, content: ConfigListContent)
    requires Valid(s) && s.node == root && TextsAll(Enum(Abs(s), ""), ft)
    ensures ok <==> Sent(Abs(s), ft).Some?
    ensures ok ==> content.Valid() && RepresentAll(content.records, Sent(Abs(s), ft).value)
  {
    hide Valid, Abs, Separate, Matches, View, Enum, Pass, RepresentAll, TextsAll, SortedKeys, Holds, HasRoom, Packed,
         Packable, Grown;
    content := new ConfigListContent();
    ghost var e := Enum(Abs(s), "");
    NothingHeld(s.nodes);
    EmptyUnion(map[], e);
    var nodes := root.EnumLeafs(s, map[], "", map[], s.nodes);
    NothingSent();
    ghost var defaults, others := Pass(e, SortedKeys(e.Keys), true, ft), Pass(e, SortedKeys(e.Keys), false, ft);
    if defaults.Some? { ConcatEmpty(defaults.value); }
    ok := AppendPass(nodes, content, true, ft, e, s.nodes, []);
    if !ok {
      if defaults.Some? && others.Some? { NoRoomForMore(defaults.value, others.value); }
      return;
    }
    var nodes' := root.EnumLeafs(s, map[], "", map[], s.nodes);
    ok := AppendPass(nodes', content, false, ft, e, s.nodes, defaults.value);
  }

  lemma NothingSent()
    ensures RepresentAll([], [])
  {
  }

  lemma NothingHeld(ns: set<YamlConfigurationNode>)
    ensures Holds(map[], map[], ns)
  {
  }

  // ---- The client ----

  class MemoryConfiguration {
    var root: YamlConfigurationNode
    ghost var rs: YamlNode.Shape

    ghost predicate Intact()
      reads this, rs.nodes
    {
      Valid(rs) && rs.node == root
    }

    ghost function Contents(): Tree
      requires Intact()
      reads this, rs.nodes
    {
      Abs(rs)
    }

    constructor ()
      ensures Intact() && Contents() == NewRoot() && fresh(rs.nodes)
    {
      var r := new YamlConfigurationNode.Root();
      root, rs := r, Single(r);
    }

    /** set_float, set_uint, set_int, set_bool and set_string, and the same with set_default. */
    method SetScalar(path: string, text: string, isDefault: bool) returns (ok: bool)
      requires Intact()
      modifies this, rs.nodes
      ensures Intact() && fresh(rs.nodes - old(rs.nodes))
      ensures Outcome(Contents(), ok) == Store(old(Contents()), Split(path), text, isDefault)
    {
      hide Valid, Abs, Split, SetValue;
      ghost var t := Abs(rs);
      ok, rs := root.SetValue(rs, path, text);
      if ok {
        StoredThere(t, Split(path), text);
        var found;
        found, rs := root.SetDefaultAt(rs, path, isDefault);
      }
    }

    /** set_floats, set_uints, set_ints, set_bools and set_strings. */
    method SetItems(path: string, items: seq<string>) returns (ok: bool)
      requires Intact()
      modifies this, rs.nodes
      ensures Intact() && fresh(rs.nodes - old(rs.nodes))
      ensures Outcome(Contents(), ok) == StoreList(old(Contents()), Split(path), items)
    {
      hide Valid, Abs, Split, SetListAt;
      ghost var t := Abs(rs);
      ok, rs := root.SetList(rs, path, items);
      if ok {
        ListThere(t, Split(path), items);
        var found;
        found, rs := root.SetDefaultAt(rs, path, false);
      }
    }

    /** The set that a decoded entity leads to. */
    method Take(e: Entity, ft: FloatText) returns (ok: bool)
      requires Intact() && Mirror.Shape(e)
      modifies this, rs.nodes
      ensures Intact() && fresh(rs.nodes - old(rs.nodes))
      ensures Outcome(Contents(), ok) == Receive(old(Contents()), e, ft)
    {
      hide Store, StoreList, TextsOf, ScalarStored;
      if e.isList {
        ok := SetItems(e.path, TextsOf(e.values, ft));
      } else {
        ok := SetScalar(e.path, ScalarStored(e, ft), e.isDefault);
      }
    }

    /** The list loop of inbound_received, over the bytes of a message and the number of its records. */
    method TakeList(b: seq<Byte>, n: nat, ft: FloatText) returns (ok: bool)
      requires Intact()
      modifies this, rs.nodes
      ensures Intact() && fresh(rs.nodes - old(rs.nodes))
      ensures Outcome(Contents(), ok) == TakeIn(old(Contents()), b, n, ft)
    {
      hide Receive, Decode, Valid, Abs, First, Rest;
      ghost var goal := TakeIn(Contents(), b, n, ft);
      var clc := new DynamicBuffer.Read(b, n);
      while clc.HasNext()
        invariant Intact() && fresh(rs.nodes - old(rs.nodes)) && fresh(clc) && {clc as object} !! rs.nodes
        invariant clc.readOnly && clc.numElements == n && clc.fetched <= n && clc.Positioned()
        invariant goal == TakeIn(Contents(), clc.Remaining(), n - clc.fetched, ft)
        decreases n - clc.fetched
      {
        var cle := clc.Next();
        if !cle.Fetched? {
          return false;
        }
        var d := DecodeRecord(cle.data);
        match d {
          case OutOfBounds =>
            return false;
          case Ignored =>
          case Got(e) =>
            ok := Take(e, ft);
            if !ok {
              return;
            }
        }
      }
      ok := true;
    }

    // ---- Iterators ----

    /** iterator: all leaves under their texts. */
    method Iterator() returns (nodes: map<string, YamlConfigurationNode>)
      requires Intact()
      ensures Holds(nodes, Enum(Contents(), ""), rs.nodes)
    {
      hide Valid, Abs, Enum;
      EmptyUnion(map[], Enum(Abs(rs), ""));
      nodes := root.EnumLeafs(rs, map[], "", map[], rs.nodes);
    }

    /** iterator_default and iterator_hostspecific: collect what does not belong in a queue, then delete it. */
    method IteratorFor(isDefault: bool) returns (nodes: map<string, YamlConfigurationNode>)
      requires Intact()
      ensures Holds(nodes, OnlyFlagged(Enum(Contents(), ""), isDefault), rs.nodes)
    {
      hide Valid, Abs, Enum, SortedKeys, Holds;
      nodes := Iterator();
      ghost var e := Enum(Abs(rs), "");
      FlagsHeld(nodes, e, rs.nodes);
      var delnodes := Collect(nodes, SortedKeys(nodes.Keys), !isDefault);
      KeptAreFlagged(nodes, e, rs.nodes, delnodes, isDefault);
      nodes := Delete(nodes, delnodes);
    }

    /** The keys of the nodes with the flag, in order. */
    static method Collect(nodes: map<string, YamlConfigurationNode>, ks: seq<string>, flag: bool)
        returns (queue: seq<string>)
      requires forall k :: k in ks ==> k in nodes
      ensures forall x :: x in queue <==> x in ks && nodes[x].isDefault == flag
    {
      queue := [];
      var i := 0;
      while i < |ks|
        invariant 0 <= i <= |ks|
        invariant forall x :: x in queue <==> x in ks[..i] && nodes[x].isDefault == flag
      {
        TakeSnoc(ks, i);
        if nodes[ks[i]].isDefault == flag {
          queue := queue + [ks[i]];
        }
        i := i + 1;
      }
      TakeAll(ks);
    }

    static method Delete(all: map<string, YamlConfigurationNode>, keys: seq<string>)
        returns (nodes: map<string, YamlConfigurationNode>)
      ensures nodes == map x | x in all && x !in keys :: all[x]
    {
      nodes := all;
      var queue := keys;
      while queue != []
        invariant forall x :: x in all && x in keys ==> x in queue || x !in nodes
        invariant forall x :: x in queue ==> x in keys
        invariant nodes.Keys <= all.Keys && forall x :: x in nodes ==> nodes[x] == all[x]
        invariant forall x :: x in all && x !in keys ==> x in nodes
        decreases |queue|
      {
        FirstAndRest(queue);
        nodes := nodes - {queue[0]};
        queue := queue[1..];
      }
    }
  }

  lemma FlagsHeld(nodes: map<string, YamlConfigurationNode>, e: map<string, Tree>, ns: set<YamlConfigurationNode>)
    requires Holds(nodes, e, ns)
    ensures nodes.Keys == e.Keys && forall k :: k in nodes ==> nodes[k].isDefault == e[k].isDefault
  {
  }

  lemma KeptAreFlagged(all: map<string, YamlConfigurationNode>, e: map<string, Tree>, ns: set<YamlConfigurationNode>,
                       keys: seq<string>, isDefault: bool)
    requires Holds(all, e, ns) && forall k :: k in keys <==> k in e && e[k].isDefault != isDefault
    ensures Holds(map k | k in all && k !in keys :: all[k], OnlyFlagged(e, isDefault), ns)
  {
    var kept := map k | k in all && k !in keys :: all[k];
    assert kept.Keys == OnlyFlagged(e, isDefault).Keys;
  }

  lemma FirstAndRest(q: seq<string>)
    requires q != []
    ensures forall x :: x in q <==> x == q[0] || x in q[1..]
  {
    assert q == [q[0]] + q[1..];
  }

  /** The entries of an enumeration with the given default flag. */
  function OnlyFlagged(e: map<string, Tree>, isDefault: bool): map<string, Tree> {
    map x | x in e && e[x].isDefault == isDefault :: e[x]
  }

  /** The two iterators share no entry and together have all of them. */
  lemma FlagsPartition(e: map<string, Tree>)
    ensures OnlyFlagged(e, true) + OnlyFlagged(e, false) == e
    ensures OnlyFlagged(e, true).Keys !! OnlyFlagged(e, false).Keys
  {
    var u := OnlyFlagged(e, true) + OnlyFlagged(e, false);
    assert u.Keys == e.Keys;
    MapExt(u, e);
  }

  lemma StoredThere(t: Tree, p: Path, text: string)
    requires SetValue(t, p, text).ok
    ensures Exists(SetValue(t, p, text).tree, p)
  {
    PutExists(t, p, ConfigTree.SetScalar(Lookup(FindOrInsert(t, p), p).value, text));
  }

  lemma ListThere(t: Tree, p: Path, items: seq<string>)
    requires SetListAt(t, p, items).ok
    ensures Exists(SetListAt(t, p, items).tree, p)
  {
    PutExists(t, p, SetList(Lookup(FindOrInsert(t, p), p).value, items));
  }
}
