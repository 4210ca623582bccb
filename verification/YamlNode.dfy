/** YamlConfigurationNode (src/libs/config/yaml_node.h): nodes on the heap, changed in place. */
module YamlNode {
  import opened Paths
  import opened ScalarText
  import opened ConfigTree
  import opened ConfigMerge
  import opened ConfigDoc
  import opened LeafDiff
  import opened MapFacts

  /** A tree on the heap: its top node, the trees below it, and the nodes it owns. */
  datatype Shape = Shape(node: YamlConfigurationNode, kids: map<string, Shape>, nodes: set<YamlConfigurationNode>)

  /** The fields of one node, and a snapshot of a set of nodes. */
  datatype Cell = Cell(name: string, kind: Kind, scalar: string, items: seq<string>, isDefault: bool,
                       children: map<string, YamlConfigurationNode>)

  type Heap = map<YamlConfigurationNode, Cell>

  ghost function Single(n: YamlConfigurationNode): Shape {
    Shape(n, map[], {n})
  }

  /** Every tree owns what the trees below it own, and no two of them own the same node. */
  ghost predicate Separate(s: Shape) {
    && s.node in s.nodes
    && (forall k :: k in s.kids ==> Separate(s.kids[k]) && s.node !in s.kids[k].nodes && s.kids[k].nodes <= s.nodes)
    && (forall k, k' :: k in s.kids && k' in s.kids && k != k' ==> s.kids[k].nodes !! s.kids[k'].nodes)
  }

  /** In the snapshot, the children of every object are those the shape names. */
  ghost predicate Matches(s: Shape, h: Heap) {
    && s.node in h
    && h[s.node].children.Keys == s.kids.Keys
    && forall k :: k in s.kids ==> h[s.node].children[k] == s.kids[k].node && Matches(s.kids[k], h)
  }

  /** The tree that the objects of a shape represent in a snapshot. */
  ghost function View(s: Shape, h: Heap): Tree
    requires Matches(s, h)
  {
    var c := h[s.node];
    Tree(c.name, c.kind, c.scalar, c.items, c.isDefault, map k | k in s.kids :: View(s.kids[k], h))
  }

  ghost function Snap(ns: set<YamlConfigurationNode>): Heap
    reads ns
  {
    map o | o in ns :: o.Fields()
  }

  ghost predicate Valid(s: Shape)
    reads s.nodes
  {
    Separate(s) && Matches(s, Snap(s.nodes))
  }

  ghost function Abs(s: Shape): Tree
    requires Valid(s)
    reads s.nodes
  {
    View(s, Snap(s.nodes))
  }

  /** A node represents its fields and the trees its children represent. */
  lemma Assemble(s: Shape, h: Heap, kids: map<string, Tree>)
    requires s.node in h && h[s.node].children.Keys == s.kids.Keys == kids.Keys
    requires forall k :: k in s.kids ==>
               h[s.node].children[k] == s.kids[k].node && Matches(s.kids[k], h) && View(s.kids[k], h) == kids[k]
    ensures Matches(s, h)
    ensures View(s, h) ==
            Tree(h[s.node].name, h[s.node].kind, h[s.node].scalar, h[s.node].items, h[s.node].isDefault, kids)
  {
    MapExt(View(s, h).kids, kids);
  }

  // ---- Paths into a shape ----

  ghost predicate Has(s: Shape, p: Path) {
    p == [] || (p[0] in s.kids && Has(s.kids[p[0]], p[1..]))
  }

  ghost function At(s: Shape, p: Path): Shape
    requires Has(s, p)
  {
    if p == [] then s else At(s.kids[p[0]], p[1..])
  }

  ghost function Put(s: Shape, p: Path, r: Shape): Shape
    requires Has(s, p)
  {
    if p == [] then r
    else s.(kids := s.kids[p[0] := Put(s.kids[p[0]], p[1..], r)], nodes := s.nodes + r.nodes)
  }

  lemma {:induction false} AtNodes(s: Shape, p: Path)
    requires Has(s, p) && Separate(s)
    ensures At(s, p).nodes <= s.nodes && Separate(At(s, p)) && At(s, p).node in s.nodes
    decreases p
  {
    if p != [] {
      AtNodes(s.kids[p[0]], p[1..]);
    }
  }

  /** A tree depends only on its own objects. */
  lemma {:induction false} ViewFrame(s: Shape, h: Heap, h': Heap)
    requires Separate(s) && Matches(s, h)
    requires forall o :: o in s.nodes && o in h ==> o in h' && h'[o] == h[o]
    ensures Matches(s, h') && View(s, h') == View(s, h)
    decreases s
  {
    forall k | k in s.kids ensures Matches(s.kids[k], h') && View(s.kids[k], h') == View(s.kids[k], h) {
      ViewFrame(s.kids[k], h, h');
    }
  }

  /** The part of a tree that a path leads to. */
  lemma {:induction false} ViewAt(s: Shape, p: Path, h: Heap)
    requires Separate(s) && Matches(s, h)
    ensures Has(s, p) <==> Exists(View(s, h), p)
    ensures Has(s, p) ==> Separate(At(s, p)) && Matches(At(s, p), h) && Lookup(View(s, h), p) == Some(View(At(s, p), h))
    decreases p
  {
    if p != [] && p[0] in s.kids {
      ViewAt(s.kids[p[0]], p[1..], h);
    }
  }

  lemma UpdateKidSeparate(s: Shape, k: string, c: Shape, ns: set<YamlConfigurationNode>)
    requires Separate(s) && k in s.kids && Separate(c) && c.nodes * s.nodes <= s.kids[k].nodes
    requires c.nodes <= s.nodes + ns
    ensures Separate(s.(kids := s.kids[k := c], nodes := s.nodes + ns))
  {
  }

  lemma UpdateKid(s: Shape, k: string, c: Shape, ns: set<YamlConfigurationNode>, h: Heap, h': Heap)
    requires Separate(s) && Matches(s, h) && k in s.kids
    requires Matches(c, h') && c.node == s.kids[k].node
    requires forall o :: o in s.nodes && o !in s.kids[k].nodes && o in h ==> o in h' && h'[o] == h[o]
    ensures Matches(s.(kids := s.kids[k := c], nodes := s.nodes + ns), h')
    ensures View(s.(kids := s.kids[k := c], nodes := s.nodes + ns), h') ==
            View(s, h).(kids := View(s, h).kids[k := View(c, h')])
  {
    forall j | j in s.kids && j != k ensures Matches(s.kids[j], h') && View(s.kids[j], h') == View(s.kids[j], h) {
      ViewFrame(s.kids[j], h, h');
    }
    var s' := s.(kids := s.kids[k := c], nodes := s.nodes + ns);
    MapExt(View(s', h').kids, View(s, h).kids[k := View(c, h')]);
  }

  /** Exchanging the part of a heap tree that a path leads to, and nothing else of it, exchanges the
      represented subtree. */
  lemma {:induction false} UpdateAt(s: Shape, p: Path, r: Shape, h: Heap, h': Heap)
    requires Separate(s) && Matches(s, h) && Has(s, p)
    requires Separate(r) && Matches(r, h') && r.node == At(s, p).node
    requires r.nodes * s.nodes <= At(s, p).nodes
    requires forall o :: o in s.nodes && o !in At(s, p).nodes && o in h ==> o in h' && h'[o] == h[o]
    ensures Separate(Put(s, p, r)) && Matches(Put(s, p, r), h') && Put(s, p, r).node == s.node
    ensures Put(s, p, r).nodes <= s.nodes + r.nodes
    ensures Exists(View(s, h), p)
    ensures View(Put(s, p, r), h') == Graft(View(s, h), p, View(r, h'))
    decreases p
  {
    if p != [] {
      var k, c := p[0], s.kids[p[0]];
      AtNodes(c, p[1..]);
      UpdateAt(c, p[1..], r, h, h');
      var c' := Put(c, p[1..], r);
      UpdateKidSeparate(s, k, c', r.nodes);
      UpdateKid(s, k, c', r.nodes, h, h');
    }
  }

  /** The same in the current state: h is the snapshot of s from before the change. */
  lemma Commit(s: Shape, p: Path, r: Shape, h: Heap)
    requires Separate(s) && Matches(s, h) && Has(s, p)
    requires Valid(r) && r.node == At(s, p).node && r.nodes * s.nodes <= At(s, p).nodes
    requires forall o :: o in s.nodes && o !in At(s, p).nodes && o in h ==> h[o] == o.Fields()
    ensures Valid(Put(s, p, r)) && Put(s, p, r).node == s.node
    ensures Put(s, p, r).nodes <= s.nodes + r.nodes
    ensures Exists(View(s, h), p)
    ensures Abs(Put(s, p, r)) == Graft(View(s, h), p, Abs(r))
  {
    var h' := Snap(s.nodes + r.nodes);
    ViewFrame(r, Snap(r.nodes), h');
    UpdateAt(s, p, r, h, h');
    ViewFrame(Put(s, p, r), h', Snap(Put(s, p, r).nodes));
  }

  /** A subtree of a valid tree is valid and represents the subtree at the same path. */
  lemma ValidAt(s: Shape, p: Path)
    requires Valid(s)
    ensures Has(s, p) <==> Exists(Abs(s), p)
    ensures Has(s, p) ==> Valid(At(s, p)) && At(s, p).nodes <= s.nodes && Lookup(Abs(s), p) == Some(Abs(At(s, p)))
  {
    ViewAt(s, p, Snap(s.nodes));
    if Has(s, p) {
      AtNodes(s, p);
      ViewFrame(At(s, p), Snap(s.nodes), Snap(At(s, p).nodes));
    }
  }

  lemma NodeOwned(s: Shape, p: Path)
    requires Separate(s) && Has(s, p)
    ensures At(s, p).node in s.nodes
  {
    AtNodes(s, p);
  }

  lemma AtTop(s: Shape)
    ensures Has(s, []) && At(s, []) == s
  {
  }

  lemma ChildrenOf(s: Shape, p: Path)
    requires Valid(s) && Has(s, p)
    ensures Valid(At(s, p)) && At(s, p).node in At(s, p).nodes && At(s, p).nodes <= s.nodes
    ensures At(s, p).node.children.Keys == At(s, p).kids.Keys && Abs(At(s, p)).name == At(s, p).node.name
    ensures forall k :: k in At(s, p).kids ==> At(s, p).node.children[k] == At(s, p).kids[k].node
    ensures Exists(Abs(s), p) && Lookup(Abs(s), p).value == Abs(At(s, p))
    ensures HasKids(Abs(At(s, p))) <==> At(s, p).node.children.Keys != {}
  {
    ValidAt(s, p);
    AtNodes(s, p);
  }

  lemma MissingPrefix(s: Shape, q: Path, i: nat)
    requires Valid(s) && i <= |q| && !Has(s, q[..i])
    ensures !Exists(Abs(s), q)
  {
    ValidAt(s, q[..i]);
    LookupSplit(Abs(s), q[..i], q[i..]);
    assert q[..i] + q[i..] == q;
  }

  lemma {:induction false} HasSnoc(s: Shape, p: Path, k: string)
    requires Has(s, p)
    ensures Has(s, p + [k]) <==> k in At(s, p).kids
    ensures k in At(s, p).kids ==> At(s, p + [k]) == At(s, p).kids[k]
    decreases p
  {
    if p == [] {
      assert p + [k] == [k] && [k][1..] == [];
    } else {
      assert (p + [k])[1..] == p[1..] + [k];
      HasSnoc(s.kids[p[0]], p[1..], k);
    }
  }

  lemma {:induction false} AtPut(s: Shape, p: Path, r: Shape)
    requires Has(s, p)
    ensures Has(Put(s, p, r), p) && At(Put(s, p, r), p) == r
    decreases p
  {
    if p != [] {
      AtPut(s.kids[p[0]], p[1..], r);
    }
  }

  class YamlConfigurationNode {
    var name: string
    var kind: Kind
    var scalar: string
    var children: map<string, YamlConfigurationNode>
    var items: seq<string>
    var isDefault: bool

    ghost function Fields(): Cell
      reads this
    {
      Cell(name, kind, scalar, items, isDefault, children)
    }

    constructor (name: string)
      ensures Fields() == Cell(name, NONE, "", [], false, map[])
      ensures Valid(Single(this)) && Abs(Single(this)) == NewNode(name)
    {
      this.name, kind, scalar, children, items, isDefault := name, NONE, "", map[], [], false;
    }

    constructor Root()
      ensures Valid(Single(this)) && Abs(Single(this)) == NewRoot()
    {
      name, kind, scalar, children, items, isDefault := "root", UNKNOWN, "", map[], [], false;
    }

    method AddChild(p: string, n: YamlConfigurationNode)
      modifies this
      ensures Fields() == old(Fields()).(children := old(children)[p := n],
                                         kind := ChildKind(old(kind)))
    {
      if kind != MAP && kind != SEQUENCE_MAP {
        kind := MAP;
      }
      children := children[p := n];
    }

    predicate HasChildren()
      reads this
    {
      children.Keys != {}
    }

    /** find: the node at a path, or no entry. */
    method Find(ghost s: Shape, path: string) returns (r: Option<YamlConfigurationNode>)
      requires Valid(s) && s.node == this
      ensures r.Some? <==> Exists(Abs(s), Split(path))
      ensures r.Some? ==> Has(s, Split(path)) && r.value == At(s, Split(path)).node
    {
      hide Valid, Abs, Separate, Matches, View, Has, At, Split;
      var q := Split(path);
      var n := this;
      var i := 0;
      AtTop(s);
      while i < |q|
        invariant 0 <= i <= |q|
        invariant Has(s, q[..i]) && At(s, q[..i]).node == n
      {
        TakeSnoc(q, i);
        HasSnoc(s, q[..i], q[i]);
        ChildrenOf(s, q[..i]);
        if q[i] !in n.children {
          MissingPrefix(s, q, i + 1);
          return None;
        }
        n := n.children[q[i]];
        i := i + 1;
      }
      TakeAll(q);
      ValidAt(s, q);
      return Some(n);
    }

    /** find_or_insert */
    method FindOrInsert(ghost s: Shape, path: string) returns (n: YamlConfigurationNode, ghost s': Shape)
      requires Valid(s) && s.node == this
      modifies s.nodes
      ensures Valid(s') && s'.node == this && s.nodes <= s'.nodes && fresh(s'.nodes - s.nodes)
      ensures Has(s', Split(path)) && At(s', Split(path)).node == n
      ensures Abs(s') == ConfigTree.FindOrInsert(old(Abs(s)), Split(path))
    {
      n, s' := Reach(s, Split(path));
    }

    /** The loop of find_or_insert: walk down, adding the nodes that are missing. */
    method Reach(ghost s: Shape, q: Path) returns (n: YamlConfigurationNode, ghost s': Shape)
      requires Valid(s) && s.node == this
      modifies s.nodes
      ensures Valid(s') && s'.node == this && s.nodes <= s'.nodes && fresh(s'.nodes - s.nodes)
      ensures Has(s', q) && At(s', q).node == n
      ensures Abs(s') == ConfigTree.FindOrInsert(old(Abs(s)), q)
    {
      hide Valid, Abs, Separate, Matches, View, Has, At, InsertedTo, ConfigTree.FindOrInsert;
      n, s' := this, s;
      var i := 0;
      AtTop(s);
      ghost var goal := ConfigTree.FindOrInsert(Abs(s), q);
      InsertStart(Abs(s), q);
      while i < |q|
        invariant 0 <= i <= |q|
        invariant Valid(s') && s'.node == this && s.nodes <= s'.nodes && fresh(s'.nodes - s.nodes)
        invariant Has(s', q[..i]) && At(s', q[..i]).node == n
        invariant InsertedTo(Abs(s'), q, i, goal)
      {
        InsertStep(Abs(s'), q, i, goal);
        ChildrenOf(s', q[..i]);
        TakeSnoc(q, i);
        n, s' := n.InsertChild(s', q[..i], q[i]);
        i := i + 1;
      }
      InsertEnd(Abs(s'), q, goal);
      TakeAll(q);
    }

    /** One round of find_or_insert, at the node that path p of the tree s leads to. */
    method InsertChild(ghost s: Shape, ghost p: Path, pel: string) returns (n: YamlConfigurationNode, ghost s': Shape)
      requires Valid(s) && Has(s, p) && At(s, p).node == this && Exists(Abs(s), p)
      modifies this
      ensures Valid(s') && s'.node == s.node && s.nodes <= s'.nodes && fresh(s'.nodes - s.nodes)
      ensures Has(s', p + [pel]) && At(s', p + [pel]).node == n
      ensures Abs(s') == Graft(old(Abs(s)), p, ConfigTree.InsertChild(Lookup(old(Abs(s)), p).value, pel))
    {
      ValidAt(s, p);
      HasSnoc(s, p, pel);
      s' := s;
      if pel !in children {
        ghost var h := Snap(s.nodes);
        ghost var r := AddFresh(At(s, p), pel);
        Commit(s, p, r, h);
        s' := Put(s, p, r);
        AtPut(s, p, r);
        HasSnoc(s', p, pel);
        PutNodes(s, p, r);
      } else {
        GraftSelf(Abs(s), p);
      }
      n := children[pel];
    }

    /** add_child with a newly made node. */
    method AddFresh(ghost s: Shape, pel: string) returns (ghost r: Shape)
      requires Valid(s) && s.node == this && pel !in children
      modifies this
      ensures Valid(r) && r.node == this && s.nodes <= r.nodes && fresh(r.nodes - s.nodes)
      ensures pel in children && pel in r.kids && r.kids[pel].node == children[pel]
      ensures Abs(r) == ConfigTree.AddChild(old(Abs(s)), pel, NewNode(pel))
    {
      hide Valid, Abs, Separate, Matches, View;
      TopFields(s);
      Captured(s);
      ghost var h := Snap(s.nodes);
      var c := new YamlConfigurationNode(pel);
      AddChild(pel, c);
      r := Shape(this, s.kids[pel := Single(c)], s.nodes + {c});
      SingleView(c, Snap(r.nodes));
      SeparateAdd(s, pel, Single(c));
      ViewAdd(s, pel, Single(c), kind, h, Snap(r.nodes));
      IsValid(r);
    }

    // ---- Values ----

    /** determine_scalar_type */
    function DetermineScalarType(): (k: Kind)
      reads this
      ensures IsScalarKind(k)
    {
      if kind == SEQUENCE then FirstKind(items) else ScalarKind(scalar)
    }

    method SetScalar(ghost s: Shape, text: string)
      requires Valid(s) && s.node == this
      modifies this
      ensures Valid(s) && Abs(s) == ConfigTree.SetScalar(old(Abs(s)), text)
    {
      ghost var h := Snap(s.nodes);
      scalar := text;
      kind := DetermineScalarType();
      ViewFields(s, h, Snap(s.nodes));
    }

    method SetScalarList(ghost s: Shape, values: seq<string>)
      requires Valid(s) && s.node == this
      modifies this
      ensures Valid(s) && Abs(s) == ConfigTree.SetList(old(Abs(s)), values)
    {
      ghost var h := Snap(s.nodes);
      items := values;
      kind := SEQUENCE;
      ViewFields(s, h, Snap(s.nodes));
    }

    method SetDefault(ghost s: Shape, isDefault: bool)
      requires Valid(s) && s.node == this
      modifies this
      ensures Valid(s) && Abs(s) == old(Abs(s)).(isDefault := isDefault)
    {
      ghost var h := Snap(s.nodes);
      this.isDefault := isDefault;
      ViewFields(s, h, Snap(s.nodes));
    }

    /** set_value with the text of the value; false where the source throws. */
    method SetValue(ghost s: Shape, path: string, text: string) returns (ok: bool, ghost s': Shape)
      requires Valid(s) && s.node == this
      modifies s.nodes
      ensures Valid(s') && s'.node == this && s.nodes <= s'.nodes && fresh(s'.nodes - s.nodes)
      ensures Outcome(Abs(s'), ok) == ConfigTree.SetValue(old(Abs(s)), Split(path), text)
    {
      hide Valid, Abs, Separate, Matches, View, Split, Has, At, Put;
      var n;
      n, s' := FindOrInsert(s, path);
      ghost var q := Split(path);
      ChildrenOf(s', q);
      Captured(s');
      if n.HasChildren() {
        return false, s';
      }
      ghost var h, r := Snap(s'.nodes), At(s', q);
      n.SetScalar(r, text);
      Commit(s', q, r, h);
      PutNodes(s', q, r);
      return true, Put(s', q, r);
    }

    /** set_list with the texts of the values. */
    method SetList(ghost s: Shape, path: string, values: seq<string>) returns (ok: bool, ghost s': Shape)
      requires Valid(s) && s.node == this
      modifies s.nodes
      ensures Valid(s') && s'.node == this && s.nodes <= s'.nodes && fresh(s'.nodes - s.nodes)
      ensures Outcome(Abs(s'), ok) == ConfigTree.SetListAt(old(Abs(s)), Split(path), values)
    {
      hide Valid, Abs, Separate, Matches, View, Split, Has, At, Put;
      var n;
      n, s' := FindOrInsert(s, path);
      ghost var q := Split(path);
      ChildrenOf(s', q);
      Captured(s');
      if n.HasChildren() {
        return false, s';
      }
      ghost var h, r := Snap(s'.nodes), At(s', q);
      n.SetScalarList(r, values);
      Commit(s', q, r, h);
      PutNodes(s', q, r);
      return true, Put(s', q, r);
    }

    /** set_default with a path; false where find throws. */
    method SetDefaultAt(ghost s: Shape, path: string, isDefault: bool) returns (ok: bool, ghost s': Shape)
      requires Valid(s) && s.node == this
      modifies s.nodes
      ensures Valid(s') && s'.node == this && s'.nodes == s.nodes
      ensures ok <==> Exists(old(Abs(s)), Split(path))
      ensures var t := old(Abs(s)); var q := Split(path);
              Abs(s') == if ok then Graft(t, q, Lookup(t, q).value.(isDefault := isDefault)) else t
    {
      hide Valid, Abs, Separate, Matches, View, Split, Has, At, Put, Lookup;
      var n := Find(s, path);
      s' := s;
      ok := n.Some?;
      if ok {
        ghost var q := Split(path);
        ChildrenOf(s, q);
        Captured(s);
        ghost var h, r := Snap(s.nodes), At(s, q);
        n.value.SetDefault(r, isDefault);
        Commit(s, q, r, h);
        PutNodes(s, q, r);
        s' := Put(s, q, r);
      }
    }

    // ---- erase ----

    /** children_.erase(k) */
    method RemoveHere(ghost s: Shape, k: string) returns (ghost r: Shape)
      requires Valid(s) && s.node == this
      modifies this
      ensures Valid(r) && r.node == this && r.nodes == s.nodes && name == old(name)
      ensures Abs(r) == old(Abs(s)).(kids := old(Abs(s)).kids - {k})
    {
      ghost var h := Snap(s.nodes);
      children := children - {k};
      r := s.(kids := s.kids - {k});
      ViewRemove(s, k, h, Snap(s.nodes));
    }

    /** children_.erase(k) at the node that path p of the tree s leads to. */
    method RemoveChild(ghost s: Shape, ghost p: Path, k: string) returns (ghost s': Shape)
      requires Valid(s) && Has(s, p) && At(s, p).node == this && Exists(Abs(s), p + [k])
      modifies this
      ensures Valid(s') && s'.node == s.node && s'.nodes == s.nodes && name == old(name)
      ensures Abs(s') == Cut(old(Abs(s)), p + [k])
      ensures SameSpine(s, s', p)
    {
      hide Valid, Abs, Separate, Matches, View, Graft, Cut, SameSpine, Put;
      ghost var h := Snap(s.nodes);
      ChildrenOf(s, p);
      Captured(s);
      GraftCut(Abs(s), p, k);
      ghost var r := RemoveHere(At(s, p), k);
      Commit(s, p, r, h);
      PutNodes(s, p, r);
      PutSpine(s, p, r);
      s' := Put(s, p, r);
    }

    /** The first loop of erase: walk down, stacking the nodes that are passed. */
    method Descend(ghost s: Shape, q: Path)
        returns (found: bool, qs: seq<YamlConfigurationNode>, n: YamlConfigurationNode)
      requires Valid(s) && s.node == this
      ensures found <==> Exists(Abs(s), q)
      ensures found ==> |qs| == |q| && OnSpine(s, q, qs) && Has(s, q) && At(s, q).node == n
    {
      hide Valid, Abs, Separate, Matches, View, Has, At;
      qs, n := [], this;
      AtTop(s);
      var i := 0;
      while i < |q|
        invariant 0 <= i <= |q| && |qs| == i
        invariant OnSpine(s, q, qs) && Has(s, q[..i]) && At(s, q[..i]).node == n
      {
        TakeSnoc(q, i);
        HasSnoc(s, q[..i], q[i]);
        ChildrenOf(s, q[..i]);
        if q[i] !in n.children {
          MissingPrefix(s, q, i + 1);
          return false, qs, n;
        }
        qs := qs + [n];
        n := n.children[q[i]];
        i := i + 1;
      }
      TakeAll(q);
      ValidAt(s, q);
      found := true;
    }

    /** erase: unlink a leaf and every ancestor that is left without children. */
    method Erase(ghost s: Shape, path: string) returns (ok: bool, ghost s': Shape)
      requires Valid(s) && s.node == this && Named(Abs(s))
      modifies s.nodes
      ensures Valid(s') && s'.node == this && s'.nodes == s.nodes
      ensures Outcome(Abs(s'), ok) == ConfigTree.Erase(old(Abs(s)), Split(path))
    {
      var q := Split(path);
      var found, qs, n := Descend(s, q);
      if !found {
        return false, s;
      }
      ChildrenOf(s, q);
      if n.HasChildren() {
        return false, s;
      }
      s' := PruneUp(s, q, qs, n);
      ok := true;
    }

    /** The second loop of erase, which pops the stack. */
    method PruneUp(ghost s: Shape, ghost q: Path, stack: seq<YamlConfigurationNode>, leaf: YamlConfigurationNode)
      returns (ghost s': Shape)
      requires Valid(s) && s.node == this && Named(Abs(s)) && Exists(Abs(s), q)
      requires |stack| == |q| && OnSpine(s, q, stack) && Has(s, q) && At(s, q).node == leaf
      modifies s.nodes
      ensures Valid(s') && s'.node == this && s'.nodes == s.nodes
      ensures Abs(s') == Prune(old(Abs(s)), q)
    {
      s' := s;
      ghost var t0 := Abs(s);
      var qs, child := stack, leaf;
      PruneStart(t0, q);
      ChildrenOf(s, q);
      if q != [] { NamedAt(t0, q); }
      while qs != []
        invariant |qs| <= |q| && Valid(s') && s'.node == this && s'.nodes == s.nodes
        invariant OnSpine(s', q, qs)
        invariant qs != [] ==> child.name == q[|qs| - 1]
        invariant PruneLeft(t0, q, |qs|, Abs(s'))
      {
        var en := qs[|qs| - 1];
        NodeOwned(s', q[..|qs| - 1]);
        var more;
        more, s' := en.Unlink(s', q, qs, child.name, t0);
        if !more {
          return;
        }
        child := en;
        qs := qs[..|qs| - 1];
      }
    }

    /** One round of that loop: unlink the child and tell whether this node has to go as well. */
    method Unlink(ghost s: Shape, ghost q: Path, ghost qs: seq<YamlConfigurationNode>, k: string, ghost t0: Tree)
      returns (more: bool, ghost s': Shape)
      requires Valid(s) && 0 < |qs| <= |q| && OnSpine(s, q, qs) && qs[|qs| - 1] == this && k == q[|qs| - 1]
      requires Named(t0) && PruneLeft(t0, q, |qs|, Abs(s))
      modifies this
      ensures Valid(s') && s'.node == s.node && s'.nodes == s.nodes
      ensures OnSpine(s', q, qs[..|qs| - 1]) && (|qs| > 1 ==> name == q[|qs| - 2])
      ensures if more then PruneLeft(t0, q, |qs| - 1, Abs(s')) else Abs(s') == Prune(t0, q)
    {
      hide Valid, Abs, Separate, Matches, View, PruneLeft, PruneTo, Prune, Named, SameSpine;
      ghost var p := q[..|qs| - 1];
      PruneStep(t0, q, |qs|, Abs(s));
      TakeSnoc(q, |qs| - 1);
      s' := RemoveChild(s, p, k);
      SpineEnd(s, s', p);
      SpineShrinks(s, s', q, qs);
      ChildrenOf(s', p);
      PrunedName(t0, q, |qs|, Abs(s'));
      more := !HasChildren();
    }

    // ---- operator+= ----

    /** *this += n, for a tree n that shares no node with this one; false where the source throws. */
    method Merge(ghost s: Shape, n: YamlConfigurationNode, ghost ns: Shape) returns (ok: bool, ghost s': Shape)
      requires Valid(s) && s.node == this && Valid(ns) && ns.node == n && s.nodes !! ns.nodes
      requires IsContainer(kind) && Clean(Abs(s))
      modifies s.nodes
      ensures Valid(s') && s'.node == this && s.nodes <= s'.nodes && fresh(s'.nodes - s.nodes)
      ensures Outcome(Abs(s'), ok) == MergeInto(old(Abs(s)), Abs(ns))
      ensures IsContainer(kind) && Clean(Abs(s'))
      decreases ns, 2, 1
    {
      hide Valid, Abs, Separate, Matches, View, Clean, ConfigMerge.MergeNode, IsContainer;
      TopFields(s);
      TopFields(ns);
      MergeIntoClean(Abs(s), Abs(ns));
      MergeIntoKind(Abs(s), Abs(ns));
      if n.name == "root" {
        ok, s' := MergeNode(s, n, ns);
      } else {
        ok, s' := MergeNamed(s, n, ns);
      }
      TopFields(s');
    }

    method MergeNamed(ghost s: Shape, n: YamlConfigurationNode, ghost ns: Shape) returns (ok: bool, ghost s': Shape)
      requires Valid(s) && s.node == this && Valid(ns) && ns.node == n && s.nodes !! ns.nodes
      requires Clean(Abs(s)) && n.name != "root"
      modifies s.nodes
      ensures Valid(s') && s'.node == this && s.nodes <= s'.nodes && fresh(s'.nodes - s.nodes)
      ensures Outcome(Abs(s'), ok) == MergeInto(old(Abs(s)), Abs(ns))
      decreases ns, 2, 0
    {
      hide Valid, Abs, Separate, Matches, View, Clean, MergeInto, Target, ConfigMerge.MergeNode;
      Owned(s);
      TopFields(ns);
      ghost var t0, tn := Abs(s), Abs(ns);
      var name := n.name;
      TargetClean(t0, tn);
      ghost var s1 := InsertTarget(s, n, ns);
      ghost var t1, h, k := Abs(s1), Snap(s1.nodes), s1.kids[name];
      ValidKid(s1, name);
      Captured(s1);
      ghost var c;
      ok, c := children[name].MergeNode(k, n, ns);
      s' := CommitKid(s1, name, c, h, t1);
      MergeIntoVia(t0, tn, t1, Outcome(Abs(c), ok), Abs(s'));
    }

    /** Makes sure that there is a node to merge n into. */
    method InsertTarget(ghost s: Shape, n: YamlConfigurationNode, ghost ns: Shape) returns (ghost s': Shape)
      requires Valid(s) && s.node == this && Valid(ns) && ns.node == n && s.nodes !! ns.nodes
      modifies this
      ensures Valid(s') && s'.node == this && s.nodes <= s'.nodes && fresh(s'.nodes - s.nodes)
      ensures n.name in s'.kids
      ensures Abs(s') == old(Abs(s)).(kids := old(Abs(s)).kids[n.name := Target(old(Abs(s)), Abs(ns))])
    {
      hide Valid, Abs, Separate, Matches, View;
      TopFields(s);
      TopFields(ns);
      s' := s;
      if n.name !in children {
        s' := AddTarget(s, n);
      } else {
        assert Abs(s).kids[n.name := Abs(s).kids[n.name]] == Abs(s).kids;
      }
    }

    method AddTarget(ghost s: Shape, n: YamlConfigurationNode) returns (ghost s': Shape)
      requires Valid(s) && s.node == this && n.name !in children
      modifies this
      ensures Valid(s') && s'.node == this && s.nodes <= s'.nodes && fresh(s'.nodes - s.nodes)
      ensures n.name in s'.kids
      ensures n.name == old(n.name) && n.kind == old(n.kind)
      ensures Abs(s') == old(Abs(s)).(kids := old(Abs(s)).kids[n.name := NewNode(n.name).(kind := n.kind)])
    {
      hide Valid, Abs, Separate, Matches, View;
      TopFields(s);
      Captured(s);
      ghost var h := Snap(s.nodes);
      var newVal := new YamlConfigurationNode(n.name);
      newVal.kind := n.kind;
      children := children[n.name := newVal];
      s' := Shape(this, s.kids[n.name := Single(newVal)], s.nodes + {newVal});
      SingleView(newVal, Snap(s'.nodes));
      SeparateAdd(s, n.name, Single(newVal));
      ViewAdd(s, n.name, Single(newVal), kind, h, Snap(s'.nodes));
      IsValid(s');
    }

    /** The branches of operator+= for the node add_to, which this is. A list is copied as it is: its
        items go through the type of the text of the parent of add_to, which is empty. */
    method MergeNode(ghost s: Shape, n: YamlConfigurationNode, ghost ns: Shape) returns (ok: bool, ghost s': Shape)
      requires Valid(s) && s.node == this && Valid(ns) && ns.node == n && s.nodes !! ns.nodes
      requires Clean(Abs(s))
      modifies s.nodes
      ensures Valid(s') && s'.node == this && s.nodes <= s'.nodes && fresh(s'.nodes - s.nodes)
      ensures Outcome(Abs(s'), ok) == ConfigMerge.MergeNode(old(Abs(s)), Abs(ns))
      decreases ns, 1
    {
      hide Valid, Abs, Separate, Matches, View, Clean, ConfigMerge.MergeKids, SortedKeys;
      TopFields(s);
      TopFields(ns);
      s' := s;
      if IsScalarKind(kind) {
        ok := IsScalarKind(n.kind);
        if ok {
          SetScalar(s, n.scalar);
        }
      } else if kind == SEQUENCE {
        ok := n.kind == SEQUENCE && !HasChildren();
        if ok {
          SetScalarList(s, n.items);
        }
      } else if kind == SEQUENCE_MAP {
        if n.kind != SEQUENCE_MAP {
          return false, s;
        }
        ClearedClean(Abs(s));
        s' := ClearChildren(s);
        ok, s' := MergeKids(s', n, ns);
      } else {
        ok, s' := MergeKids(s, n, ns);
      }
    }

    method ClearChildren(ghost s: Shape) returns (ghost r: Shape)
      requires Valid(s) && s.node == this
      modifies this
      ensures Valid(r) && r.node == this && r.nodes == s.nodes && kind == old(kind)
      ensures Abs(r) == old(Abs(s)).(kids := map[])
    {
      children := map[];
      r := Shape(this, map[], s.nodes);
      Assemble(r, Snap(s.nodes), map[]);
    }

    method MergeKid(ghost s: Shape, n: YamlConfigurationNode, ghost ns: Shape, k: string)
        returns (ok: bool, ghost s': Shape)
      requires Valid(s) && s.node == this && Valid(ns) && ns.node == n && s.nodes !! ns.nodes
      requires IsContainer(kind) && Clean(Abs(s)) && k in Abs(ns).kids
      modifies s.nodes
      ensures Valid(s') && s'.node == this && s.nodes <= s'.nodes && fresh(s'.nodes - s.nodes)
      ensures Outcome(Abs(s'), ok) == MergeInto(old(Abs(s)), Abs(ns).kids[k])
      ensures IsContainer(kind) && Clean(Abs(s'))
      decreases ns, 0, 0
    {
      hide Valid, Abs, Separate, Matches, View, Clean, MergeInto, IsContainer;
      ChildKeys(ns);
      ValidKid(ns, k);
      ok, s' := Merge(s, n.children[k], ns.kids[k]);
    }

    /** The loop of operator+= over the children of n. */
    method MergeKids(ghost s: Shape, n: YamlConfigurationNode, ghost ns: Shape) returns (ok: bool, ghost s': Shape)
      requires Valid(s) && s.node == this && Valid(ns) && ns.node == n && s.nodes !! ns.nodes
      requires IsContainer(kind) && Clean(Abs(s))
      modifies s.nodes
      ensures Valid(s') && s'.node == this && s.nodes <= s'.nodes && fresh(s'.nodes - s.nodes)
      ensures Outcome(Abs(s'), ok) == ConfigMerge.MergeKids(old(Abs(s)), Abs(ns), SortedKeys(Abs(ns).kids.Keys))
      decreases ns, 0, 1
    {
      hide Valid, Abs, Separate, Matches, View, Clean, MergeInto, MergeLeft, SortedKeys, IsContainer,
           ConfigMerge.MergeKids;
      s' := s;
      ghost var tn := Abs(ns);
      var ks := SortedKeys(n.children.Keys);
      ChildKeys(ns);
      Owned(s);
      ghost var goal := ConfigMerge.MergeKids(Abs(s), tn, ks);
      MergeLeftStart(Abs(s), tn);
      var i := 0;
      while i < |ks|
        invariant 0 <= i <= |ks|
        invariant Valid(s') && s'.node == this && s.nodes <= s'.nodes && fresh(s'.nodes - s.nodes)
        invariant Valid(ns) && Abs(ns) == tn && s'.nodes !! ns.nodes
        invariant IsContainer(kind) && Clean(Abs(s'))
        invariant MergeLeft(Abs(s'), tn, ks, i, goal)
      {
        MergeLeftStep(Abs(s'), tn, ks, i, goal);
        ok, s' := MergeKid(s', n, ns, ks[i]);
        if !ok {
          return;
        }
        i := i + 1;
      }
      MergeLeftEnd(Abs(s'), tn, ks, goal);
      ok := true;
    }

    // ---- create ----

    /** create: the tree of a document, or None where the source throws. */
    static method Create(doc: Doc, name: string) returns (r: Option<YamlConfigurationNode>, ghost s: Shape)
      requires WellKeyed(doc)
      ensures r.Some? <==> ConfigDoc.Create(doc, name).Some?
      ensures r.Some? ==> Valid(s) && s.node == r.value && fresh(s.nodes) && Abs(s) == ConfigDoc.Create(doc, name).value
      decreases doc, 1
    {
      var n := new YamlConfigurationNode(name);
      s := Single(n);
      var ok := true;
      match doc {
        case NullDoc =>
        case ScalarDoc(text) => n.SetScalar(s, text);
        case SequenceDoc(items) => ok, s := n.SetSequence(s, items);
        case MapDoc(entries) =>
          n.SetKind(s, MAP);
          ok, s := n.SetMap(s, entries);
      }
      r := if ok then Some(n) else None;
    }

    method SetKind(ghost s: Shape, kind: Kind)
      requires Valid(s) && s.node == this
      modifies this
      ensures Valid(s) && Abs(s) == old(Abs(s)).(kind := kind)
    {
      ghost var h := Snap(s.nodes);
      this.kind := kind;
      ViewFields(s, h, Snap(s.nodes));
    }

    /** set_sequence */
    method SetSequence(ghost s: Shape, items: seq<Doc>) returns (ok: bool, ghost s': Shape)
      requires Valid(s) && s.node == this && forall d :: d in items ==> WellKeyed(d)
      modifies s.nodes
      ensures Valid(s') && s'.node == this && s.nodes <= s'.nodes && fresh(s'.nodes - s.nodes)
      ensures ok <==> ConfigDoc.SetSequence(old(Abs(s)), items).Some?
      ensures ok ==> Abs(s') == ConfigDoc.SetSequence(old(Abs(s)), items).value
      decreases items, 0
    {
      hide Valid, Abs, Separate, Matches, View, WellKeyed;
      Owned(s);
      s' := s;
      ok := true;
      if items == [] {
        SetScalarList(s, []);
      } else if items[0].ScalarDoc? {
        var texts;
        ok, texts := ScalarTexts(items);
        if ok {
          SetScalarList(s, texts);
        }
      } else if items[0].MapDoc? {
        SetScalarList(s, seq(|items|, _ => ""));
        SetKind(s, SEQUENCE_MAP);
        ok, s' := AddNumbered(s, items);
      } else {
        ok := false;
      }
    }

    /** The items of a list of scalars as texts. */
    static method ScalarTexts(items: seq<Doc>) returns (ok: bool, texts: seq<string>)
      ensures ok <==> forall d :: d in items ==> d.ScalarDoc?
      ensures ok ==> |texts| == |items| && forall i :: 0 <= i < |items| ==> texts[i] == items[i].text
    {
      texts := [];
      var i := 0;
      while i < |items|
        invariant 0 <= i <= |items| && |texts| == i
        invariant forall j :: 0 <= j < i ==> items[j].ScalarDoc? && texts[j] == items[j].text
      {
        if !items[i].ScalarDoc? {
          return false, [];
        }
        texts := texts + [items[i].text];
        i := i + 1;
      }
      ok := true;
    }

    /** The loop of set_sequence over the maps of a sequence. */
    method AddNumbered(ghost s: Shape, items: seq<Doc>) returns (ok: bool, ghost s': Shape)
      requires Valid(s) && s.node == this && forall d :: d in items ==> WellKeyed(d)
      modifies s.nodes
      ensures Valid(s') && s'.node == this && s.nodes <= s'.nodes && fresh(s'.nodes - s.nodes)
      ensures ok <==> Numbered(old(Abs(s)), items, 0).Some?
      ensures ok ==> Abs(s') == Numbered(old(Abs(s)), items, 0).value
      decreases items, 0, 0
    {
      hide Valid, Abs, Separate, Matches, View, WellKeyed, PrintNat, ConfigDoc.Create;
      s' := s;
      ghost var goal := Numbered(Abs(s), items, 0);
      var i := 0;
      while i < |items|
        invariant 0 <= i <= |items|
        invariant Valid(s') && s'.node == this && s.nodes <= s'.nodes && fresh(s'.nodes - s.nodes)
        invariant goal == Numbered(Abs(s'), items, i)
      {
        var key := PrintNat(i);
        Owned(s');
        var c;
        ghost var cs;
        c, cs := Create(items[i], key);
        if c.None? {
          return false, s';
        }
        s' := Adopt(s', key, c.value, cs);
        i := i + 1;
      }
      ok := true;
    }

    /** add_child with a whole tree that shares no node with this one. */
    method Adopt(ghost s: Shape, key: string, c: YamlConfigurationNode, ghost cs: Shape) returns (ghost r: Shape)
      requires Valid(s) && s.node == this && Valid(cs) && cs.node == c && cs.nodes !! s.nodes
      modifies this
      ensures Valid(r) && r.node == this && r.nodes == s.nodes + cs.nodes
      ensures Abs(r) == ConfigTree.AddChild(old(Abs(s)), key, old(Abs(cs)))
    {
      hide Valid, Abs, Separate, Matches, View;
      TopFields(s);
      Captured(s);
      Captured(cs);
      ghost var h, hc := Snap(s.nodes), Snap(cs.nodes);
      AddChild(key, c);
      r := Shape(this, s.kids[key := cs], s.nodes + cs.nodes);
      SeparateAdd(s, key, cs);
      ViewFrame(cs, hc, Snap(r.nodes));
      ViewAdd(s, key, cs, kind, h, Snap(r.nodes));
      IsValid(r);
    }

    /** set_map */
    method SetMap(ghost s: Shape, entries: seq<Entry>) returns (ok: bool, ghost s': Shape)
      requires Valid(s) && s.node == this && forall e :: e in entries ==> KeyPath(e.key) != [] && WellKeyed(e.value)
      modifies s.nodes
      ensures Valid(s') && s'.node == this && s.nodes <= s'.nodes && fresh(s'.nodes - s.nodes)
      ensures ok <==> ConfigDoc.SetMap(old(Abs(s)), entries).Some?
      ensures ok ==> Abs(s') == ConfigDoc.SetMap(old(Abs(s)), entries).value
      decreases entries, 0
    {
      hide Valid, Abs, Separate, Matches, View, WellKeyed, KeyPath, SetEntry, EntryName, ConfigDoc.Create;
      s' := s;
      ghost var goal := ConfigDoc.SetMap(Abs(s), entries);
      assert entries[0..] == entries;
      var i := 0;
      while i < |entries|
        invariant 0 <= i <= |entries|
        invariant Valid(s') && s'.node == this && s.nodes <= s'.nodes && fresh(s'.nodes - s.nodes)
        invariant goal == ConfigDoc.SetMap(Abs(s'), entries[i..])
      {
        assert entries[i..][0] == entries[i] && entries[i..][1..] == entries[i + 1..];
        var added;
        added, s' := AddEntry(s', entries[i]);
        if !added {
          return false, s';
        }
        i := i + 1;
      }
      ok := true;
    }

    /** One round of set_map. */
    method AddEntry(ghost s: Shape, e: Entry) returns (ok: bool, ghost s': Shape)
      requires Valid(s) && s.node == this && KeyPath(e.key) != [] && WellKeyed(e.value)
      modifies s.nodes
      ensures Valid(s') && s'.node == this && s.nodes <= s'.nodes && fresh(s'.nodes - s.nodes)
      ensures var r := SetEntry(old(Abs(s)), e.key, ConfigDoc.Create(e.value, EntryName(e.key)));
              (ok <==> r.Some?) && (ok ==> Abs(s') == r.value)
      decreases e, 0
    {
      hide Valid, Abs, Separate, Matches, View, WellKeyed, KeyPath, ConfigDoc.Create, ConfigTree.FindOrInsert, Graft,
           Has, At, Put;
      var p := KeyPath(e.key);
      var dir, k := p[..|p| - 1], p[|p| - 1];
      var node;
      node, s' := Reach(s, dir);
      TopFields(s');
      Captured(s');
      var c;
      ghost var cs;
      c, cs := Create(e.value, k);
      if c.None? {
        return false, s';
      }
      ghost var t1, tc := Abs(s'), Abs(cs);
      if k in children {
        ValidKid(s', k);
        TopFields(cs);
        KidKind(s', k);
        if c.value.kind != children[k].kind {
          return false, s';
        }
      }
      ChildrenOf(s', dir);
      ghost var h, here := Snap(s'.nodes), At(s', dir);
      ghost var r := node.Adopt(here, k, c.value, cs);
      Commit(s', dir, r, h);
      PutNodes(s', dir, r);
      return true, Put(s', dir, r);
    }

    // ---- emit ----

    /** emit for a node with children: the map structure written. */
    method EmitEntries(ghost s: Shape) returns (entries: seq<Entry>)
      requires Valid(s) && s.node == this
      ensures MapDoc(entries) == EmitMap(Abs(s))
      decreases s, 0
    {
      hide Valid, Abs, Separate, Matches, View, SortedKeys, ConfigDoc.EmitValue, ConfigDoc.EmitEntries, EmittedTo,
           HasKids;
      TopFields(s);
      ghost var t := Abs(s);
      var ks := SortedKeys(children.Keys);
      entries := [];
      ghost var goal := ConfigDoc.EmitEntries(t, ks);
      EmitStart(t, ks);
      var i := 0;
      while i < |ks|
        invariant 0 <= i <= |ks|
        invariant EmittedTo(t, ks, i, entries, goal)
      {
        var k := ks[i];
        EmitStep(t, ks, i, entries, goal);
        ValidKid(s, k);
        var v := children[k].EmitValue(s.kids[k]);
        entries := entries + [Entry(k, v)];
        i := i + 1;
      }
      EmitEnd(t, ks, entries, goal);
    }

    method EmitValue(ghost s: Shape) returns (doc: Doc)
      requires Valid(s) && s.node == this
      ensures doc == ConfigDoc.EmitValue(Abs(s))
      decreases s, 1
    {
      hide Valid, Abs, Separate, Matches, View, SortedKeys;
      TopFields(s);
      if HasChildren() {
        var es := EmitEntries(s);
        doc := MapDoc(es);
      } else {
        doc := ScalarDoc(scalar);
      }
    }

    /** What emit writes to a file. */
    method Emit(ghost s: Shape) returns (file: Option<Doc>)
      requires Valid(s) && s.node == this
      ensures file == ConfigDoc.Emit(Abs(s))
    {
      hide Valid, Abs, Separate, Matches, View, EmitMap;
      TopFields(s);
      if HasChildren() {
        var es := EmitEntries(s);
        file := Some(MapDoc(es));
      } else {
        file := None;
      }
    }

    // ---- enum_leafs and diff ----

    /** enum_leafs: adds the leaves below this node to the map nodes. */
    method EnumLeafs(ghost s: Shape, nodes: map<string, YamlConfigurationNode>, prefix: string,
                     ghost e: map<string, Tree>, ghost ns: set<YamlConfigurationNode>)
      returns (r: map<string, YamlConfigurationNode>)
      requires Valid(s) && s.node == this && Holds(nodes, e, ns) && s.nodes <= ns
      ensures Holds(r, e + Enum(Abs(s), prefix), ns)
      decreases s, 1
    {
      hide Valid, Abs, Separate, Matches, View, SortedKeys, Enum, EnumKid, EnumTo, Holds, LeafDiff.EnumKids;
      TopFields(s);
      ghost var t, e' := Abs(s), e;
      r := nodes;
      var ks := SortedKeys(children.Keys);
      EnumStart(t, prefix, e);
      ghost var goal := e + Enum(t, prefix);
      var i := 0;
      while i < |ks|
        invariant 0 <= i <= |ks|
        invariant EnumTo(t, prefix, ks, i, e', goal) && Holds(r, e', ns)
      {
        var k := ks[i];
        EnumStep(t, prefix, ks, i, e', goal);
        ValidKid(s, k);
        r := children[k].EnumLeaf(s.kids[k], r, prefix + "/" + k, e', ns);
        e' := e' + EnumKid(t.kids[k], prefix + "/" + k);
        i := i + 1;
      }
      EnumEnd(t, prefix, ks, e', goal);
    }

    /** One round of enum_leafs for a child with the given path. */
    method EnumLeaf(ghost s: Shape, nodes: map<string, YamlConfigurationNode>, path: string,
                    ghost e: map<string, Tree>, ghost ns: set<YamlConfigurationNode>)
      returns (r: map<string, YamlConfigurationNode>)
      requires Valid(s) && s.node == this && Holds(nodes, e, ns) && s.nodes <= ns
      ensures Holds(r, e + EnumKid(Abs(s), path), ns)
      decreases s, 2
    {
      hide Valid, Abs, Separate, Matches, View, SortedKeys, Enum;
      TopFields(s);
      if HasChildren() {
        r := EnumLeafs(s, nodes, path, e, ns);
      } else {
        r := nodes[path := this];
        assert e + map[path := Abs(s)] == e[path := Abs(s)];
      }
    }

    /** diff */
    static method Diff(a: YamlConfigurationNode, ghost sa: Shape, b: YamlConfigurationNode, ghost sb: Shape)
      returns (rv: seq<string>)
      requires Valid(sa) && sa.node == a && Valid(sb) && sb.node == b
      ensures rv == LeafDiff.Diff(Abs(sa), Abs(sb))
    {
      hide Valid, Abs, Separate, Matches, View, SortedKeys, Enum, ChangedIn, OnlyIn;
      ghost var ea, eb := Enum(Abs(sa), ""), Enum(Abs(sb), "");
      ghost var ns := sa.nodes + sb.nodes;
      EmptyUnion(map[], ea);
      EmptyUnion(map[], eb);
      var na := a.EnumLeafs(sa, map[], "", map[], ns);
      var nb := b.EnumLeafs(sb, map[], "", map[], ns);
      rv := DiffLoops(na, nb, ea, eb, ns);
    }

    static method DiffLoops(na: map<string, YamlConfigurationNode>, nb: map<string, YamlConfigurationNode>,
                            ghost ea: map<string, Tree>, ghost eb: map<string, Tree>,
                            ghost ns: set<YamlConfigurationNode>)
      returns (rv: seq<string>)
      requires Holds(na, ea, ns) && Holds(nb, eb, ns)
      ensures rv == DiffOf(ea, eb)
    {
      hide SortedKeys, ChangedIn, OnlyIn;
      rv := [];
      var ks := SortedKeys(na.Keys);
      var i := 0;
      ghost var changed := ChangedIn(ea, eb, ks);
      assert ks[0..] == ks;
      ConcatEmpty(changed);
      while i < |ks|
        invariant 0 <= i <= |ks| && changed == rv + ChangedIn(ea, eb, ks[i..])
      {
        ChangedStep(ea, eb, ks, i, rv);
        if ks[i] !in nb || na[ks[i]].Differs(nb[ks[i]]) {
          rv := rv + [ks[i]];
        } else {
          ConcatEmpty(rv);
        }
        i := i + 1;
      }
      ChangedEnd(ea, eb, ks, rv);
      ks := SortedKeys(nb.Keys);
      i := 0;
      assert ks[0..] == ks;
      while i < |ks|
        invariant 0 <= i <= |ks| && DiffOf(ea, eb) == rv + OnlyIn(ea, ks[i..])
      {
        OnlyInStep(ea, ks, i, rv);
        if ks[i] !in na {
          rv := rv + [ks[i]];
        } else {
          ConcatEmpty(rv);
        }
        i := i + 1;
      }
      OnlyInEnd(ea, ks, rv);
    }

    /** operator!= */
    predicate Differs(n: YamlConfigurationNode)
      reads this, n
    {
      name != n.name || kind != n.kind || scalar != n.scalar
    }
  }

  /** The nodes of a map hold, under the same texts, what the trees of e hold, and belong to ns. */
  ghost predicate Holds(m: map<string, YamlConfigurationNode>, e: map<string, Tree>, ns: set<YamlConfigurationNode>)
    reads ns
  {
    && m.Keys == e.Keys
    && forall x :: x in m ==>
       m[x] in ns && m[x].name == e[x].name && m[x].kind == e[x].kind && m[x].scalar == e[x].scalar
                              && m[x].items == e[x].items && m[x].isDefault == e[x].isDefault
  }

  lemma KidKind(s: Shape, k: string)
    requires Valid(s) && k in s.kids
    ensures k in Abs(s).kids && Abs(s).kids[k].kind == s.kids[k].node.kind && s.kids[k].node in s.nodes
  {
    ValidKid(s, k);
    TopFields(s.kids[k]);
  }

  lemma Captured(s: Shape)
    requires Valid(s)
    ensures Separate(s) && s.node in s.nodes && Matches(s, Snap(s.nodes)) && View(s, Snap(s.nodes)) == Abs(s)
  {
  }

  lemma TopFields(s: Shape)
    requires Valid(s)
    ensures s.node in s.nodes
    ensures var t := Abs(s);
            && t.name == s.node.name && t.kind == s.node.kind && t.scalar == s.node.scalar && t.items == s.node.items
            && t.isDefault == s.node.isDefault && t.kids.Keys == s.kids.Keys == s.node.children.Keys
  {
  }

  /** What a snapshot of the current state says about a tree holds of the tree. */
  lemma IsValid(s: Shape)
    requires Separate(s) && Matches(s, Snap(s.nodes))
    ensures Valid(s) && Abs(s) == View(s, Snap(s.nodes))
  {
  }

  lemma SingleView(n: YamlConfigurationNode, h: Heap)
    requires n in h && h[n].children == map[]
    ensures Separate(Single(n)) && Matches(Single(n), h)
    ensures View(Single(n), h) == Tree(h[n].name, h[n].kind, h[n].scalar, h[n].items, h[n].isDefault, map[])
  {
    Assemble(Single(n), h, map[]);
  }

  lemma Owned(s: Shape)
    requires Separate(s) || Valid(s)
    ensures s.node in s.nodes
  {
  }

  lemma ChildKeys(s: Shape)
    requires Valid(s)
    ensures s.node.children.Keys == s.kids.Keys == Abs(s).kids.Keys
  {
  }

  lemma ValidKid(s: Shape, k: string)
    requires Valid(s) && k in s.kids
    ensures Valid(s.kids[k]) && s.kids[k].nodes <= s.nodes && s.kids[k].node in s.nodes
    ensures s.node.children.Keys == s.kids.Keys && s.node.children[k] == s.kids[k].node
    ensures k in Abs(s).kids && Abs(s).kids[k] == Abs(s.kids[k])
  {
    ViewFrame(s.kids[k], Snap(s.nodes), Snap(s.kids[k].nodes));
  }

  /** Commit for a child of the top node. */
  lemma CommitKid(s: Shape, k: string, c: Shape, h: Heap, t: Tree) returns (s': Shape)
    requires Separate(s) && Matches(s, h) && View(s, h) == t && k in s.kids
    requires Valid(c) && c.node == s.kids[k].node && s.kids[k].nodes <= c.nodes && c.nodes * s.nodes <= s.kids[k].nodes
    requires forall o :: o in s.nodes && o !in s.kids[k].nodes && o in h ==> h[o] == o.Fields()
    ensures Valid(s') && s'.node == s.node && s'.nodes == s.nodes + c.nodes
    ensures Abs(s') == t.(kids := t.kids[k := Abs(c)])
  {
    s' := s.(kids := s.kids[k := c], nodes := s.nodes + c.nodes);
    UpdateKidSeparate(s, k, c, c.nodes);
    var h' := Snap(s'.nodes);
    ViewFrame(c, Snap(c.nodes), h');
    UpdateKid(s, k, c, c.nodes, h, h');
  }

  /** The same nodes lie along a path in both trees. */
  ghost predicate SameSpine(s: Shape, s': Shape, p: Path) {
    forall i :: 0 <= i <= |p| ==> Has(s, p[..i]) && Has(s', p[..i]) && At(s', p[..i]).node == At(s, p[..i]).node
  }

  lemma SpineEnd(s: Shape, s': Shape, p: Path)
    requires SameSpine(s, s', p)
    ensures Has(s, p) && Has(s', p) && At(s', p).node == At(s, p).node
  {
    TakeAll(p);
  }

  lemma SpineShrinks(s: Shape, s': Shape, q: Path, qs: seq<YamlConfigurationNode>)
    requires 0 < |qs| <= |q| && OnSpine(s, q, qs) && SameSpine(s, s', q[..|qs| - 1])
    ensures OnSpine(s', q, qs[..|qs| - 1])
  {
    var p := q[..|qs| - 1];
    forall i | 0 <= i < |qs| - 1 ensures Has(s', q[..i]) && At(s', q[..i]).node == qs[i] {
      assert p[..i] == q[..i];
    }
  }

  /** The nodes along a path, from the top on. */
  ghost predicate OnSpine(s: Shape, q: Path, ns: seq<YamlConfigurationNode>) {
    |ns| <= |q| && forall i :: 0 <= i < |ns| ==> Has(s, q[..i]) && At(s, q[..i]).node == ns[i]
  }

  /** Changing fields other than the children of the top node. */
  lemma ViewFields(s: Shape, h: Heap, h': Heap)
    requires Separate(s) && Matches(s, h)
    requires s.node in h' && h'[s.node].children == h[s.node].children
    requires forall o :: o in s.nodes && o != s.node && o in h ==> o in h' && h'[o] == h[o]
    ensures Matches(s, h')
    ensures View(s, h') ==
            Tree(h'[s.node].name, h'[s.node].kind, h'[s.node].scalar, h'[s.node].items, h'[s.node].isDefault,
                                View(s, h).kids)
  {
    KidsFrame(s, h, h');
    Assemble(s, h', View(s, h).kids);
  }

  /** Taking a child out of the top node. */
  lemma ViewRemove(s: Shape, k: string, h: Heap, h': Heap)
    requires Separate(s) && Matches(s, h)
    requires s.node in h' && h'[s.node] == h[s.node].(children := h[s.node].children - {k})
    requires forall o :: o in s.nodes && o != s.node && o in h ==> o in h' && h'[o] == h[o]
    ensures var r := s.(kids := s.kids - {k});
            Separate(r) && Matches(r, h') && View(r, h') == View(s, h).(kids := View(s, h).kids - {k})
  {
    KidsFrame(s, h, h');
    Assemble(s.(kids := s.kids - {k}), h', View(s, h).kids - {k});
  }

  /** Exchanging the part of a tree at a path leaves the nodes along the path where they are. */
  lemma {:induction false} PutSpineAt(s: Shape, p: Path, r: Shape, q: Path)
    requires Has(s, p) && q <= p && r.node == At(s, p).node
    ensures Has(s, q) && Has(Put(s, p, r), q) && At(Put(s, p, r), q).node == At(s, q).node
    decreases p
  {
    if q != [] {
      TailPrefix(p, q);
      PutSpineAt(s.kids[p[0]], p[1..], r, q[1..]);
    }
  }

  lemma PutSpine(s: Shape, p: Path, r: Shape)
    requires Has(s, p) && r.node == At(s, p).node
    ensures SameSpine(s, Put(s, p, r), p)
  {
    forall i | 0 <= i <= |p|
      ensures Has(s, p[..i]) && Has(Put(s, p, r), p[..i]) && At(Put(s, p, r), p[..i]).node == At(s, p[..i]).node
    {
      PutSpineAt(s, p, r, p[..i]);
    }
  }

  lemma SeparateAdd(s: Shape, k: string, c: Shape)
    requires Separate(s) && Separate(c) && c.nodes !! s.nodes
    ensures Separate(Shape(s.node, s.kids[k := c], s.nodes + c.nodes))
  {
  }

  /** Filing a tree c under a new key and setting the kind, seen in the snapshots before and after. */
  lemma ViewAdd(s: Shape, k: string, c: Shape, kind: Kind, h: Heap, h': Heap)
    requires Separate(s) && Matches(s, h) && Matches(c, h')
    requires s.node in h' && h'[s.node] == h[s.node].(children := h[s.node].children[k := c.node], kind := kind)
    requires forall o :: o in s.nodes && o != s.node && o in h ==> o in h' && h'[o] == h[o]
    ensures var r := Shape(s.node, s.kids[k := c], s.nodes + c.nodes);
            Matches(r, h') && View(r, h') == View(s, h).(kind := kind, kids := View(s, h).kids[k := View(c, h')])
  {
    KidsFrame(s, h, h');
    var kids := View(s, h).kids[k := View(c, h')];
    Assemble(Shape(s.node, s.kids[k := c], s.nodes + c.nodes), h', kids);
  }

  /** Changing the top node of a tree leaves the trees below it alone. */
  lemma KidsFrame(s: Shape, h: Heap, h': Heap)
    requires Separate(s) && Matches(s, h)
    requires forall o :: o in s.nodes && o != s.node && o in h ==> o in h' && h'[o] == h[o]
    ensures forall k :: k in s.kids ==> Matches(s.kids[k], h') && View(s.kids[k], h') == View(s, h).kids[k]
  {
    forall k | k in s.kids ensures Matches(s.kids[k], h') && View(s.kids[k], h') == View(s.kids[k], h) {
      ViewFrame(s.kids[k], h, h');
    }
  }

  lemma PutNodes(s: Shape, p: Path, r: Shape)
    requires Has(s, p) && At(s, p).nodes <= r.nodes
    ensures Put(s, p, r).nodes == s.nodes + r.nodes
  {
  }
}
