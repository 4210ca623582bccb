/** Where the values of a document are filed: set_map, set_sequence and create of YamlConfigurationNode
    (src/libs/config/yaml_node.h), with keys that are paths, keys that occur twice and sequences. */
module DocPaths {
  import opened Paths
  import opened ScalarText
  import opened ConfigTree
  import opened ConfigDoc

  // ---- Keys as paths ----

  /** The key of a document that names a path: its keys with slashes between them. */
  function KeyText(q: Path): string
    requires q != []
  {
    q[0] + Join(q[1..])
  }

  /** Written with slashes between its keys, every path is the path that the key stands for. */
  lemma KeyOfPath(q: Path)
    requires IsPath(q) && q != []
    ensures KeyPath(KeyText(q)) == q && EntryName(KeyText(q)) == q[|q| - 1]
  {
    hide Split;
    var s := KeyText(q);
    assert IsKey(q[0]);
    if |q| == 1 {
      assert s == q[0] && q == [q[0]];
    } else {
      JoinStartsWithSlash(q[1..]);
      assert s[|q[0]|] == '/';
      assert Join(q) == "/" + s;
      SplitSlash(s);
      SplitJoin(q);
    }
  }

  /** Further slashes in a key change nothing. */
  lemma FurtherSlashes(k: string, s: string)
    requires IsKey(k)
    ensures KeyPath("/" + s) == Split(s)
    ensures KeyPath(k + ("/" + s)) == [k] + Split(s)
  {
    hide Split;
    assert ("/" + s)[0] == '/' && (k + ("/" + s))[|k|] == '/';
    SplitSlash(s);
    SplitKey(k, "/" + s);
  }

  // ---- One entry ----

  /** The node at a path once a tree was filed at q: what is at or below q comes from that tree, what q runs through
      has children, and everything else is as before. */
  ghost predicate FiledAt(t: Tree, r: Tree, q: Path, c: Tree, p: Path) {
    && (q <= p ==> Lookup(r, p) == Lookup(c, p[|q|..]))
    && (p < q ==> IsInterior(r, p))
    && (!(q <= p) && !(p < q) ==> Lookup(r, p) == Lookup(t, p))
  }

  lemma ChildLookup(n: Tree, k: string, c: Tree, p: Path)
    requires p != []
    ensures Lookup(AddChild(n, k, c), p) == if p[0] == k then Lookup(c, p[1..]) else Lookup(n, p)
  {
  }

  /** One round of set_map with a key that stands for a path. */
  lemma EntryLaw(t: Tree, key: string, c: Tree, p: Path)
    requires SetEntry(t, key, Some(c)).Some?
    ensures FiledAt(t, SetEntry(t, key, Some(c)).value, KeyPath(key), c, p)
  {
    hide KeyPath, Lookup, FindOrInsert, Graft;
    var q := KeyPath(key);
    var dir, k := q[..|q| - 1], q[|q| - 1];
    var t1 := FindOrInsert(t, dir);
    var n := Lookup(t1, dir).value;
    var m := AddChild(n, k, c);
    LookupGraft(t1, dir, m, p);
    if q <= p {
      assert p[|dir|..][0] == k && p[|dir|..][1..] == p[|q|..];
      ChildLookup(n, k, c, p[|dir|..]);
    } else if p < q {
      assert p <= dir && k in m.kids;
      WholeNode(m, p[|p|..]);
    } else {
      if dir <= p {
        assert p == dir + p[|dir|..];
        assert p[|dir|] == k ==> q <= p;
        ChildLookup(n, k, c, p[|dir|..]);
        LookupSplit(t1, dir, p[|dir|..]);
      }
      if Exists(t, dir) { FindOrInsertExisting(t, dir); } else { LookupInserted(t, dir, p); }
    }
  }

  lemma WholeNode(m: Tree, p: Path)
    requires p == []
    ensures Lookup(m, p) == Some(m)
  {
  }

  /** The type that the child of the top of the tree has once the way to q is there, if there is one of the name of
      the value. */
  function KindInWay(t: Tree, q: Path): Option<Kind>
    requires q != []
  {
    var k := q[|q| - 1];
    if |q| == 1 || q[0] != k then (if k in t.kids then Some(t.kids[k].kind) else None)
    else if k !in t.kids then Some(if |q| == 2 then NONE else MAP)
    else if |q| == 2 || q[1] in t.kids[k].kids then Some(t.kids[k].kind)
    else Some(ChildKind(t.kids[k].kind))
  }

  lemma TopInserted(t: Tree, dir: Path, k: string)
    ensures k in FindOrInsert(t, dir).kids <==> k in t.kids || (dir != [] && dir[0] == k)
    ensures dir == [] || dir[0] != k ==> (k in t.kids ==> FindOrInsert(t, dir).kids[k] == t.kids[k])
    ensures dir != [] && dir[0] == k ==>
            FindOrInsert(t, dir).kids[k] == FindOrInsert(if k in t.kids then t.kids[k] else NewNode(k), dir[1..])
  {
  }

  lemma InsertedKind(c: Tree, dir: Path)
    ensures FindOrInsert(c, dir).kind == if dir == [] || dir[0] in c.kids then c.kind else ChildKind(c.kind)
  {
  }

  /** A round of set_map throws exactly if the key is made of slashes only, the value cannot be read, or the top of the
      map has a child of the name of the value with another type, even where the value is filed deeper. */
  lemma EntryThrows(t: Tree, key: string, value: Option<Tree>)
    ensures SetEntry(t, key, value).None? <==>
            || KeyPath(key) == [] || value.None?
            || (KindInWay(t, KeyPath(key)).Some? && KindInWay(t, KeyPath(key)).value != value.value.kind)
  {
    hide FindOrInsert, Graft, Lookup, KeyPath;
    var q := KeyPath(key);
    if q != [] && value.Some? {
      var dir, k := q[..|q| - 1], q[|q| - 1];
      TopInserted(t, dir, k);
      if dir != [] && dir[0] == k {
        var c := if k in t.kids then t.kids[k] else NewNode(k);
        InsertedKind(c, dir[1..]);
        assert |q| == 2 <==> dir[1..] == [];
        if |q| > 2 { assert dir[1..][0] == q[1]; }
      }
    }
  }

  // ---- All entries of a map ----

  /** Entries are filed in their order. */
  lemma {:induction false} SetMapMore(t: Tree, entries: seq<Entry>, e: Entry)
    ensures SetMap(t, entries + [e]) ==
            var r := SetMap(t, entries);
            if r.None? then None else SetEntry(r.value, e.key, Create(e.value, EntryName(e.key)))
    decreases |entries|
  {
    hide SetEntry, EntryName;
    var all := entries + [e];
    if entries == [] {
      assert all == [e] && all[1..] == [];
      assert SetMap(t, entries) == Some(t);
    } else {
      var t' := SetEntry(t, entries[0].key, Create(entries[0].value, EntryName(entries[0].key)));
      assert all[0] == entries[0] && all[1..] == entries[1..] + [e];
      if t'.Some? { SetMapMore(t'.value, entries[1..], e); }
    }
  }

  /** An entry has to do with a path that is at or below its own, or that its own runs through. */
  predicate Concerns(e: Entry, p: Path) {
    KeyPath(e.key) <= p || p < KeyPath(e.key)
  }

  lemma LastRound(t: Tree, entries: seq<Entry>)
    requires entries != [] && SetMap(t, entries).Some?
    ensures var e, before := entries[|entries| - 1], SetMap(t, entries[..|entries| - 1]);
            && before.Some? && Create(e.value, EntryName(e.key)).Some?
            && SetEntry(before.value, e.key, Create(e.value, EntryName(e.key))) == SetMap(t, entries)
  {
    hide SetMap, KeyPath, FindOrInsert, Graft, Lookup, EntryName;
    SetMapMore(t, entries[..|entries| - 1], entries[|entries| - 1]);
    assert entries == entries[..|entries| - 1] + [entries[|entries| - 1]];
  }

  /** The entry is the last one that has to do with the path. */
  ghost predicate Decides(entries: seq<Entry>, j: nat, p: Path) {
    j < |entries| && Concerns(entries[j], p) && forall i :: j < i < |entries| ==> !Concerns(entries[i], p)
  }

  /** What the entry says about the path is there. */
  ghost predicate Says(e: Entry, r: Tree, p: Path) {
    && Create(e.value, EntryName(e.key)).Some?
    && (KeyPath(e.key) <= p ==>
       Lookup(r, p) == Lookup(Create(e.value, EntryName(e.key)).value, p[|KeyPath(e.key)|..]))
    && (p < KeyPath(e.key) ==> IsInterior(r, p))
  }

  lemma {:induction false} LastEntryDecides(t: Tree, entries: seq<Entry>, j: nat, p: Path)
    requires SetMap(t, entries).Some? && Decides(entries, j, p)
    ensures Says(entries[j], SetMap(t, entries).value, p)
    decreases |entries|
  {
    hide SetMap, SetEntry, Create, KeyPath, EntryName, Lookup;
    LastRound(t, entries);
    var e, init := entries[|entries| - 1], entries[..|entries| - 1];
    EntryLaw(SetMap(t, init).value, e.key, Create(e.value, EntryName(e.key)).value, p);
    if j < |entries| - 1 { LastEntryDecides(t, init, j, p); }
  }

  lemma {:induction false} NoEntryDecides(t: Tree, entries: seq<Entry>, p: Path)
    requires SetMap(t, entries).Some? && forall j :: 0 <= j < |entries| ==> !Concerns(entries[j], p)
    ensures Lookup(SetMap(t, entries).value, p) == Lookup(t, p)
    decreases |entries|
  {
    if entries != [] {
      hide SetMap, SetEntry, Create, KeyPath, EntryName, Lookup;
      LastRound(t, entries);
      var e, init := entries[|entries| - 1], entries[..|entries| - 1];
      EntryLaw(SetMap(t, init).value, e.key, Create(e.value, EntryName(e.key)).value, p);
      NoEntryDecides(t, init, p);
    }
  }

  lemma {:induction false} SomeEntryDecides(entries: seq<Entry>, n: nat, p: Path) returns (j: nat)
    requires n < |entries| && Concerns(entries[n], p)
    ensures Decides(entries, j, p)
    decreases |entries| - n
  {
    hide Concerns;
    j := n;
    if i :| n < i < |entries| && Concerns(entries[i], p) {
      j := SomeEntryDecides(entries, i, p);
    }
  }

  /** The tree of a map holds, at every path below its top, what the last entry that has to do with the path says, and
      nothing where no entry has. */
  lemma MapHoldsItsEntries(entries: seq<Entry>, name: string, p: Path)
    requires Create(MapDoc(entries), name).Some? && p != []
    ensures forall j: nat :: Decides(entries, j, p) ==> Says(entries[j], Create(MapDoc(entries), name).value, p)
    ensures Exists(Create(MapDoc(entries), name).value, p) ==> exists j: nat :: Decides(entries, j, p)
  {
    hide SetMap, Says, Concerns;
    var t := NewNode(name).(kind := MAP);
    forall j: nat | Decides(entries, j, p) ensures Says(entries[j], SetMap(t, entries).value, p) {
      LastEntryDecides(t, entries, j, p);
    }
    if n: nat :| n < |entries| && Concerns(entries[n], p) {
      var j := SomeEntryDecides(entries, n, p);
    } else {
      NoEntryDecides(t, entries, p);
    }
  }

  /** A document with a single entry whose key is a path: it is read exactly if the value is, and the name of the value
      is not that of the first key with another type; then it has the value at that path, and leaves nowhere else. */
  lemma OneEntry(q: Path, v: Doc, name: string)
    requires IsPath(q) && q != []
    ensures var doc, c := MapDoc([Entry(KeyText(q), v)]), Create(v, q[|q| - 1]);
            && (Create(doc, name).Some? <==>
               c.Some? && !(|q| > 1 && q[0] == q[|q| - 1] && c.value.kind != if |q| == 2 then NONE else MAP))
            && (Create(doc, name).Some? ==>
               && Lookup(Create(doc, name).value, q) == c
               && forall p :: IsLeaf(Create(doc, name).value, p) ==> q <= p)
  {
    hide Create, KeyText, SetEntry, KeyPath, Lookup;
    var e := Entry(KeyText(q), v);
    var t, c := NewNode(name).(kind := MAP), Create(v, q[|q| - 1]);
    KeyOfPath(q);
    SingleRound(t, e, name);
    EntryThrows(t, e.key, c);
    if SetEntry(t, e.key, c).Some? {
      var r := SetEntry(t, e.key, c).value;
      EntryLaw(t, e.key, c.value, q);
      WholeNode(c.value, q[|q|..]);
      forall p | IsLeaf(r, p) ensures q <= p {
        EntryLaw(t, e.key, c.value, p);
        NothingBelow(t, p);
      }
    }
  }

  lemma NothingBelow(t: Tree, p: Path)
    requires !HasKids(t) && p != []
    ensures Lookup(t, p).None?
  {
  }

  lemma SingleRound(t: Tree, e: Entry, name: string)
    requires t == NewNode(name).(kind := MAP)
    ensures Create(MapDoc([e]), name) == SetEntry(t, e.key, Create(e.value, EntryName(e.key)))
  {
    hide SetEntry, EntryName;
    SetMapMore(t, [], e);
    assert [] + [e] == [e] && SetMap(t, []) == Some(t);
  }

  // ---- Sequences ----

  lemma PrintNatInjective(i: nat, j: nat)
    requires PrintNat(i) == PrintNat(j)
    ensures i == j
  {
    PrintNatDigits(i);
    PrintNatDigits(j);
  }

  /** Children for the items before i, each under its position. */
  ghost predicate NumberedTo(t: Tree, items: seq<Doc>, i: nat) {
    && i <= |items|
    && (forall k :: k in t.kids ==> exists j :: 0 <= j < i && k == PrintNat(j))
    && (forall j :: 0 <= j < i ==>
       PrintNat(j) in t.kids && Create(items[j], PrintNat(j)) == Some(t.kids[PrintNat(j)]))
  }

  lemma {:induction false} NumberedHolds(t: Tree, items: seq<Doc>, i: nat)
    requires NumberedTo(t, items, i)
    ensures Numbered(t, items, i).Some? <==> forall j :: i <= j < |items| ==> Create(items[j], PrintNat(j)).Some?
    ensures Numbered(t, items, i).Some? ==> NumberedTo(Numbered(t, items, i).value, items, |items|)
    decreases |items| - i
  {
    hide PrintNat, Create;
    if i < |items| {
      var c := Create(items[i], PrintNat(i));
      if c.Some? {
        forall j | 0 <= j < i ensures PrintNat(j) != PrintNat(i) {
          if PrintNat(j) == PrintNat(i) { PrintNatInjective(j, i); }
        }
        NumberedHolds(AddChild(t, PrintNat(i), c.value), items, i + 1);
      }
    }
  }

  /** A sequence is read as the list of its texts in their order if the first item is a text, as children under the
      numbers from 0 on if it is a map, and as an empty list if there is none; it throws for any other first item, for
      a list with another item than a text, and where an item that is to be a child throws. */
  lemma SequenceHoldsItsItems(items: seq<Doc>, name: string)
    ensures var r := Create(SequenceDoc(items), name);
            if items == [] then r == Some(SetList(NewNode(name), []))
            else if items[0].ScalarDoc? then
              && (r.Some? <==> forall d :: d in items ==> d.ScalarDoc?)
              && (r.Some? ==> r.value.kind == SEQUENCE && r.value.kids == map[] && TextsOf(items, r.value.items))
            else if items[0].MapDoc? then
              && (r.Some? <==> forall j :: 0 <= j < |items| ==> Create(items[j], PrintNat(j)).Some?)
              && (r.Some? ==> r.value.kind == SEQUENCE_MAP && NumberedTo(r.value, items, |items|))
            else r.None?
  {
    hide Numbered, NumberedTo, TextsOf;
    if items != [] && items[0].ScalarDoc? { ListHolds(items, name); }
    if items != [] && items[0].MapDoc? { MapsHold(items, name); }
  }

  predicate TextsOf(items: seq<Doc>, texts: seq<string>) {
    |texts| == |items| && forall i :: 0 <= i < |items| ==> items[i] == ScalarDoc(texts[i])
  }

  lemma ListHolds(items: seq<Doc>, name: string)
    requires items != [] && items[0].ScalarDoc?
    ensures var r := SetSequence(NewNode(name), items);
            && (r.Some? <==> forall d :: d in items ==> d.ScalarDoc?)
            && (r.Some? ==> r.value.kind == SEQUENCE && r.value.kids == map[] && TextsOf(items, r.value.items))
  {
  }

  lemma MapsHold(items: seq<Doc>, name: string)
    requires items != [] && items[0].MapDoc?
    ensures var r := SetSequence(NewNode(name), items);
            && (r.Some? <==> forall j :: 0 <= j < |items| ==> Create(items[j], PrintNat(j)).Some?)
            && (r.Some? ==> r.value.kind == SEQUENCE_MAP && NumberedTo(r.value, items, |items|))
  {
    hide Create, PrintNat;
    var t := SetList(NewNode(name), seq(|items|, _ => "")).(kind := SEQUENCE_MAP);
    NumberedHolds(t, items, 0);
    NumberedKind(t, items, 0);
  }

  lemma {:induction false} NumberedKind(t: Tree, items: seq<Doc>, i: nat)
    requires i <= |items| && t.kind == SEQUENCE_MAP
    ensures Numbered(t, items, i).Some? ==> Numbered(t, items, i).value.kind == SEQUENCE_MAP
    decreases |items| - i
  {
    hide PrintNat, Create;
    if i < |items| {
      var c := Create(items[i], PrintNat(i));
      if c.Some? { NumberedKind(AddChild(t, PrintNat(i), c.value), items, i + 1); }
    }
  }
}
