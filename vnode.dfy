/**
 * The virtual-node model shared by both diff engines: a node is a DOM
 * element (tag and children), a text node, or a Content node (a fragment:
 * children and optional render metadata, no primitive of its own). The only
 * mutable part of a node is `el`, the primitive it is bound to once mounted.
 */
module VNodes {
  import opened Wrappers
  import opened Surface

  datatype NodeType = DOM(tag: string) | Text(text: string) | Content

  /** The structure of a tree with the primitive bindings left out. */
  datatype Shape = SDom(tag: string, children: seq<Shape>) | SText(text: string) | SContent(children: seq<Shape>)

  class VNode<M> {
    const kind: NodeType
    const children: seq<VNode<M>>
    const data: Option<M>
    var el: Prim?
    /** The nodes of the tree rooted here. */
    ghost const Repr: set<VNode<M>>

    /** The tree rooted here is a finite tree of distinct nodes. */
    ghost predicate Valid()
      decreases Repr
    {
      && this in Repr
      && (kind.Text? ==> children == [])
      && (forall i :: 0 <= i < |children| ==>
            children[i].Repr < Repr && this !in children[i].Repr && children[i].Valid())
      && (forall i, j :: 0 <= i < j < |children| ==> children[i].Repr !! children[j].Repr)
      && Repr == {this} + ReprsOf(children)
    }

    constructor TextNode(text: string)
      ensures Valid() && kind == Text(text) && children == [] && data == None && el == null
      ensures Repr == {this}
    {
      kind := Text(text);
      children := [];
      data := None;
      el := null;
      Repr := {this};
    }

    constructor DomNode(tag: string, children: seq<VNode<M>>)
      requires Forest(children)
      ensures Valid() && kind == DOM(tag) && this.children == children && data == None && el == null
      ensures Repr == {this} + ReprsOf(children)
    {
      kind := DOM(tag);
      this.children := children;
      data := None;
      el := null;
      Repr := {this} + ReprsOf(children);
    }

    constructor ContentNode(children: seq<VNode<M>>, data: Option<M>)
      requires Forest(children)
      ensures Valid() && kind == Content && this.children == children && this.data == data && el == null
      ensures Repr == {this} + ReprsOf(children)
    {
      kind := Content;
      this.children := children;
      this.data := data;
      el := null;
      Repr := {this} + ReprsOf(children);
    }
  }

  /** All nodes of the trees in `cs`. */
  ghost function ReprsOf<M>(cs: seq<VNode<M>>): (r: set<VNode<M>>)
    ensures forall j :: 0 <= j < |cs| ==> cs[j].Repr <= r
  {
    if cs == [] then {} else ReprsOf(cs[..|cs| - 1]) + cs[|cs| - 1].Repr
  }

  /** Every node of `ReprsOf(cs)` belongs to the tree of some element of `cs`. */
  lemma {:induction false} ReprsOfMember<M>(cs: seq<VNode<M>>, m: VNode<M>)
    requires m in ReprsOf(cs)
    ensures exists j :: 0 <= j < |cs| && m in cs[j].Repr
  {
    var last := |cs| - 1;
    if m !in cs[last].Repr {
      ReprsOfMember(cs[..last], m);
      var j :| 0 <= j < last && m in cs[..last][j].Repr;
      assert cs[..last][j] == cs[j];
    }
  }

  /** A list of valid trees that share no node. */
  ghost predicate Forest<M>(cs: seq<VNode<M>>) {
    && (forall i :: 0 <= i < |cs| ==> cs[i].Valid())
    && (forall i, j :: 0 <= i < j < |cs| ==> cs[i].Repr !! cs[j].Repr)
  }

  /** The nodes of the children before index `i` are disjoint from those of child `i`. */
  lemma {:induction false} PrefixDisjoint<M>(n: VNode<M>, i: nat)
    requires n.Valid() && i < |n.children|
    ensures ReprsOf(n.children[..i]) !! n.children[i].Repr
  {
    forall m | m in ReprsOf(n.children[..i])
      ensures m !in n.children[i].Repr
    {
      ReprsOfMember(n.children[..i], m);
      var j :| 0 <= j < i && m in n.children[..i][j].Repr;
      assert n.children[..i][j] == n.children[j];
    }
  }

  /** The structure of the tree rooted at `n`. */
  ghost function ShapeOf<M>(n: VNode<M>): Shape
    requires n.Valid()
    decreases n.Repr, 1, 0
  {
    match n.kind
    case DOM(tag) => SDom(tag, ShapesOf(n, |n.children|))
    case Text(text) => SText(text)
    case Content => SContent(ShapesOf(n, |n.children|))
  }

  ghost function ShapesOf<M>(n: VNode<M>, i: nat): seq<Shape>
    requires n.Valid() && i <= |n.children|
    decreases n.Repr, 0, i
  {
    if i == 0 then [] else ShapesOf(n, i - 1) + [ShapeOf(n.children[i - 1])]
  }

  /** `ShapesOf(n, i)` lists the shapes of the first `i` children, in order. */
  lemma {:induction false} ShapesOfIndex<M>(n: VNode<M>, i: nat)
    requires n.Valid() && i <= |n.children|
    ensures |ShapesOf(n, i)| == i
    ensures forall j :: 0 <= j < i ==> ShapesOf(n, i)[j] == ShapeOf(n.children[j])
    decreases i
  {
    if i > 0 {
      ShapesOfIndex(n, i - 1);
    }
  }

  /** A fresh node over one unmounted child: its nodes are its own and the child's, and its child shapes are the child's. */
  lemma OneChild<M>(n: VNode<M>, c: VNode<M>)
    requires n.Valid() && n.children == [c] && n.el == null && Unmounted(c)
    ensures n.Repr == {n} + c.Repr && Unmounted(n) && ShapesOf(n, 1) == [ShapeOf(c)]
  {
    assert n.children[0] == c;
    assert n.children[..0] == [];
    assert ReprsOf(n.children) == ReprsOf(n.children[..0]) + c.Repr;
  }

  /** A fresh node over two unmounted children. */
  lemma TwoChildren<M>(n: VNode<M>, c: VNode<M>, d: VNode<M>)
    requires n.Valid() && n.children == [c, d] && n.el == null && Unmounted(c) && Unmounted(d)
    ensures n.Repr == {n} + c.Repr + d.Repr && Unmounted(n)
    ensures c.Valid() && d.Valid() && ShapesOf(n, 2) == [ShapeOf(c), ShapeOf(d)]
  {
    assert n.children[0] == c && n.children[1] == d;
    assert n.children[..1] == [c];
    assert n.children[..1][..0] == [];
    assert ReprsOf(n.children[..1]) == ReprsOf(n.children[..1][..0]) + c.Repr;
    assert ReprsOf(n.children) == ReprsOf(n.children[..1]) + d.Repr;
    assert ShapesOf(n, 1) == [ShapeOf(c)];
  }

  /** The primitives bound to the Text and DOM nodes of the tree rooted at `n`. */
  ghost function ElsOf<M>(n: VNode<M>): set<Prim>
    reads n.Repr`el
  {
    set m | m in n.Repr && !m.kind.Content? && m.el != null :: m.el
  }

  /**
   * The primitives that mounting `n` inserts directly into its target, in
   * order: its own primitive, or, for a Content node, those of its children.
   */
  ghost function Tops<M>(n: VNode<M>): seq<Prim?>
    requires n.Valid()
    reads n.Repr`el
    decreases n.Repr, 1, 0
  {
    assert n.children[..|n.children|] == n.children;
    if n.kind.Content? then ChildTops(n, |n.children|) else [n.el]
  }

  /** The top primitives of the children of `n` before index `i`, concatenated. */
  ghost function ChildTops<M>(n: VNode<M>, i: nat): seq<Prim?>
    requires n.Valid() && i <= |n.children|
    reads ReprsOf(n.children[..i])`el
    decreases n.Repr, 0, i
  {
    if i == 0 then []
    else
      assert n.children[..i][..i - 1] == n.children[..i - 1];
      assert n.children[..i][i - 1] == n.children[i - 1];
      ChildTops(n, i - 1) + Tops(n.children[i - 1])
  }

  /**
   * The tree rooted at `n` is mounted under `host`: every Text and DOM node
   * is bound to its own primitive, of the right kind and content, whose
   * parent is the primitive of the nearest DOM ancestor (or `host`), and
   * every element's children are exactly the top primitives of its
   * children, in order.
   */
  ghost predicate Mounted<M>(n: VNode<M>, host: Prim?)
    requires n.Valid()
    reads n.Repr`el, ElsOf(n)
    decreases n.Repr
  {
    match n.kind
    case Text(text) =>
      n.el != null && n.el.data == TextData(text) && n.el.children == [] && n.el.parent == host
    case DOM(tag) =>
      assert n.children[..|n.children|] == n.children;
      && n.el != null && n.el.data == ElementData(tag) && n.el.parent == host
      && n.el.children == ChildTops(n, |n.children|)
      && (forall i :: 0 <= i < |n.children| ==>
            n.el !in ElsOf(n.children[i]) && Mounted(n.children[i], n.el))
    case Content =>
      forall i :: 0 <= i < |n.children| ==> Mounted(n.children[i], host)
  }

  /**
   * Every Text and DOM node of the tree has a primitive, and Text nodes have
   * text primitives: what the diff engines expect of an old tree.
   */
  ghost predicate Bound<M>(n: VNode<M>)
    requires n.Valid()
    reads n.Repr`el, ElsOf(n)
  {
    forall m :: m in n.Repr && !m.kind.Content? ==>
      m.el != null && (m.kind.Text? ==> m.el.data.TextData?)
  }

  /** No node of the tree is bound to a primitive yet. */
  ghost predicate Unmounted<M>(n: VNode<M>)
    reads n.Repr`el
  {
    forall m :: m in n.Repr ==> m.el == null
  }

  /** Extending the prefix by one child appends that child's top primitives. */
  lemma ChildTopsStep<M>(n: VNode<M>, i: nat)
    requires n.Valid() && i < |n.children|
    ensures ChildTops(n, i + 1) == ChildTops(n, i) + Tops(n.children[i])
  {
    assert n.children[..i + 1][..i] == n.children[..i];
  }

  /** The nodes of a list of trees exist. */
  lemma ReprsOfAllocated<M>(cs: seq<VNode<M>>)
    ensures forall m :: m in ReprsOf(cs) ==> allocated(m)
  {
    forall m | m in ReprsOf(cs)
      ensures allocated(m)
    {
      ReprsOfMember(cs, m);
    }
  }

  /** A node is not part of its children's trees. */
  lemma NotInChildren<M>(n: VNode<M>)
    requires n.Valid()
    ensures n !in ReprsOf(n.children)
  {
    if n in ReprsOf(n.children) {
      ReprsOfMember(n.children, n);
    }
  }

  /** A DOM node is mounted once its element and its children are. */
  lemma MountedDom<M>(n: VNode<M>, host: Prim?)
    requires n.Valid() && n.kind.DOM? && n.el != null
    requires n.el.data == ElementData(n.kind.tag) && n.el.parent == host
    requires n.el.children == ChildTops(n, |n.children|)
    requires forall i :: 0 <= i < |n.children| ==> n.el !in ElsOf(n.children[i]) && Mounted(n.children[i], n.el)
    ensures Mounted(n, host)
  {
    assert n.children[..|n.children|] == n.children;
  }

  /** A mounted tree is bound, so it is a valid old tree for an update. */
  lemma {:induction false} MountedIsBound<M>(n: VNode<M>, host: Prim?)
    requires n.Valid() && Mounted(n, host)
    ensures Bound(n)
    decreases n.Repr
  {
    forall i | 0 <= i < |n.children|
      ensures Bound(n.children[i])
    {
      MountedIsBound(n.children[i], if n.kind.DOM? then n.el else host);
    }
    forall m | m in n.Repr && !m.kind.Content?
      ensures m.el != null && (m.kind.Text? ==> m.el.data.TextData?)
    {
      if m != n {
        ReprsOfMember(n.children, m);
        var j :| 0 <= j < |n.children| && m in n.children[j].Repr;
        assert Bound(n.children[j]);
      }
    }
  }
}
