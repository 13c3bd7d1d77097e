/**
 * The mount ("patch") and diff ("update") engine of src/____v2/vdom.ts.
 * The patch function of src/____v2/vdom2.ts is the same code and is
 * modelled here once.
 */
module VDom {
  import opened Wrappers
  import opened Surface
  import opened VNodes

  /**
   * Mounts `vnode` into `target` for the first time: a Text node gets a
   * fresh text primitive, a DOM node a fresh element (its children are then
   * mounted inside it), and a Content node mounts its children straight
   * into `target`. The new primitives are appended after the target's
   * existing children.
   */
  method Patch<M>(target: Prim, vnode: VNode<M>)
    requires vnode.Valid()
    modifies target`children, vnode.Repr
    ensures Mounted(vnode, target)
    ensures target.children == old(target.children) + Tops(vnode)
    ensures forall m :: m in vnode.Repr && !m.kind.Content? ==> fresh(m.el)
    decreases vnode.Repr, 3
  {
    if vnode.kind.Text? {
      var textEl := new Prim.CreateTextNode(vnode.kind.text);
      vnode.el := textEl;
      target.AppendChild(textEl);
    } else if vnode.kind.DOM? {
      PatchDom(target, vnode);
    } else {
      PatchContent(target, vnode);
    }
  }

  /** The DOM case of patch: a fresh element appended to the target, then the children mounted inside it. */
  method PatchDom<M>(target: Prim, vnode: VNode<M>)
    requires vnode.Valid() && vnode.kind.DOM?
    modifies target`children, vnode.Repr
    ensures Mounted(vnode, target)
    ensures target.children == old(target.children) + [vnode.el]
    ensures forall m :: m in vnode.Repr && !m.kind.Content? ==> fresh(m.el)
    decreases vnode.Repr, 2
  {
    var htmlEl := new Prim.CreateElement(vnode.kind.tag);
    vnode.el := htmlEl;
    target.AppendChild(htmlEl);
    NotInChildren(vnode);
    PatchChildren(htmlEl, vnode);
    assert forall i :: 0 <= i < |vnode.children| ==> htmlEl !in ElsOf(vnode.children[i]);
    MountedDom(vnode, target);
    FreshNodes(vnode);
  }

  /** The Content case of patch: the children mounted straight into the target. */
  method PatchContent<M>(target: Prim, vnode: VNode<M>)
    requires vnode.Valid() && vnode.kind.Content?
    modifies target`children, vnode.Repr
    ensures Mounted(vnode, target)
    ensures target.children == old(target.children) + Tops(vnode)
    ensures forall m :: m in vnode.Repr && !m.kind.Content? ==> fresh(m.el)
    decreases vnode.Repr, 2
  {
    NotInChildren(vnode);
    PatchChildren(target, vnode);
    assert vnode.children[..|vnode.children|] == vnode.children;
    FreshNodes(vnode);
  }

  /** The loop `for (let child of vnode.children) patch(host, child)`. */
  method PatchChildren<M>(host: Prim, vnode: VNode<M>)
    requires vnode.Valid()
    modifies host`children, ReprsOf(vnode.children)
    ensures host.children == old(host.children) + ChildTops(vnode, |vnode.children|)
    ensures forall i :: 0 <= i < |vnode.children| ==> Mounted(vnode.children[i], host)
    ensures forall i, m :: 0 <= i < |vnode.children| && m in vnode.children[i].Repr && !m.kind.Content? ==> fresh(m.el)
    decreases vnode.Repr, 1
  {
    for i := 0 to |vnode.children|
      invariant host.children == old(host.children) + ChildTops(vnode, i)
      invariant forall j :: 0 <= j < i ==> Mounted(vnode.children[j], host)
      invariant forall j, m :: 0 <= j < i && m in vnode.children[j].Repr && !m.kind.Content? ==> fresh(m.el)
    {
      ghost var done := ChildTops(vnode, i);
      label Step:
      PatchChild(host, vnode, i);
      forall j, m | 0 <= j <= i && m in vnode.children[j].Repr && !m.kind.Content?
        ensures fresh(m.el)
      {
        if j < i {
          assert m.el == old@Step(m.el);
        }
      }
      ConcatAssoc(old(host.children), done, Tops(vnode.children[i]));
    }
    assert vnode.children[..|vnode.children|] == vnode.children;
  }

  /** One iteration of that loop: mounting child `i` keeps its elder siblings mounted. */
  method PatchChild<M>(host: Prim, vnode: VNode<M>, i: nat)
    requires vnode.Valid() && i < |vnode.children|
    requires forall j :: 0 <= j < i ==> Mounted(vnode.children[j], host)
    requires forall j :: 0 <= j < i ==> host !in ElsOf(vnode.children[j])
    modifies host`children, vnode.children[i].Repr
    ensures host.children == old(host.children) + Tops(vnode.children[i])
    ensures ChildTops(vnode, i + 1) == old(ChildTops(vnode, i)) + Tops(vnode.children[i])
    ensures forall j :: 0 <= j <= i ==> Mounted(vnode.children[j], host)
    ensures forall m :: m in vnode.children[i].Repr && !m.kind.Content? ==> fresh(m.el)
    ensures forall j, m :: 0 <= j < i && m in vnode.children[j].Repr ==> m.el == old(m.el)
    decreases vnode.Repr, 0
  {
    PrefixDisjoint(vnode, i);
    ReprsOfAllocated(vnode.children[..i]);
    Patch(host, vnode.children[i]);
    assert ChildTops(vnode, i) == old(ChildTops(vnode, i));
    ChildTopsStep(vnode, i);
  }

  /**
   * makeDOMVNode: a fresh, detached element for a DOM vnode, bound to it,
   * with the vnode's children mounted inside it in order.
   */
  method MakeDOMVNode<M>(vnode: VNode<M>) returns (el: Prim)
    requires vnode.Valid() && vnode.kind.DOM?
    modifies vnode.Repr
    ensures el == vnode.el && fresh(el) && el.parent == null
    ensures Mounted(vnode, null)
    ensures forall m :: m in vnode.Repr && !m.kind.Content? ==> fresh(m.el)
  {
    el := new Prim.CreateElement(vnode.kind.tag);
    vnode.el := el;
    NotInChildren(vnode);
    PatchChildren(el, vnode);
    assert [] + ChildTops(vnode, |vnode.children|) == ChildTops(vnode, |vnode.children|);
    assert forall i :: 0 <= i < |vnode.children| ==> el !in ElsOf(vnode.children[i]);
    assert vnode.children[..|vnode.children|] == vnode.children;
    assert Mounted(vnode, null);
    FreshNodes(vnode);
  }

  /** Why an update throws: an unimplemented transition, or a read of `children[0]` of an empty list. */
  datatype VDomError = NotImplemented | MissingNode

  /** The single surface change an update makes, or why it fails. */
  datatype Action<M> =
    | Retext(node: VNode<M>, text: string)
    | Swap(node: VNode<M>, next: VNode<M>)
    | Keep
    | Throw(error: VDomError)

  /** `a` is reached from `n` by following first children. */
  ghost predicate OnSpine<M>(n: VNode<M>, a: VNode<M>)
    requires n.Valid()
    decreases n.Repr
  {
    a == n || (|n.children| > 0 && OnSpine(n.children[0], a))
  }

  /**
   * What update(o, n) of vdom.ts does: Text to Text rewrites the text,
   * Text to DOM and DOM to DOM with another tag replace the old element,
   * DOM to DOM with the same tag descends into the first children, and
   * every other transition throws. The acted-on old node always lies on the
   * first-child spine of `o`.
   */
  function Decide<M>(o: VNode<M>, n: VNode<M>): (a: Action<M>)
    requires o.Valid() && n.Valid()
    decreases o.Repr
    ensures a.Retext? ==> OnSpine(o, a.node) && a.node.kind.Text? && a.node in o.Repr
    ensures a.Swap? ==>
      OnSpine(o, a.node) && OnSpine(n, a.next) && a.node in o.Repr && a.next in n.Repr &&
      !a.node.kind.Content? && a.next.kind.DOM? && a.next.Valid()
    ensures a.Swap? && a.node == o ==> a.next == n
    ensures !a.Keep?
  {
    if o.kind.Text? then
      if n.kind.Text? then Retext(o, n.kind.text)
      else if n.kind.DOM? then Swap(o, n)
      else Throw(NotImplemented)
    else if o.kind.DOM? then
      if !n.kind.DOM? then Throw(NotImplemented)
      else if o.kind.tag != n.kind.tag then Swap(o, n)
      else if |o.children| == 0 then Throw(MissingNode)
      else if |n.children| == 0 then
        (if o.children[0].kind.Content? then Throw(NotImplemented) else Throw(MissingNode))
      else Decide(o.children[0], n.children[0])
    else Throw(NotImplemented)
  }

  /**
   * Updating a tree with one of the same structure never replaces a
   * primitive: it rewrites a text with the text it already has, or throws.
   */
  lemma {:induction false} DecideSameShape<M>(o: VNode<M>, n: VNode<M>)
    requires o.Valid() && n.Valid() && ShapeOf(o) == ShapeOf(n)
    ensures var a := Decide(o, n);
      && !a.Swap?
      && (a.Retext? ==> a.text == a.node.kind.text)
    decreases o.Repr
  {
    if o.kind.DOM? {
      ShapesOfIndex(o, |o.children|);
      ShapesOfIndex(n, |n.children|);
      if |o.children| > 0 && |n.children| > 0 {
        DecideSameShape(o.children[0], n.children[0]);
      }
    }
  }

  /** A node on the first-child spine of `o` belongs to the first child's tree, never to a later sibling's. */
  lemma {:induction false} OnSpineFirstChild<M>(o: VNode<M>, a: VNode<M>)
    requires o.Valid() && OnSpine(o, a)
    ensures a in o.Repr
    ensures a != o ==> |o.children| > 0 && a in o.children[0].Repr
    ensures forall i :: 1 <= i < |o.children| ==> a !in o.children[i].Repr
    decreases o.Repr
  {
    if a != o {
      OnSpineFirstChild(o.children[0], a);
    }
  }

  /** The primitive whose text an action rewrites. */
  ghost function RetextSite<M>(a: Action<M>): set<Prim>
    reads if a.Retext? then {a.node} else {}
  {
    if a.Retext? && a.node.el != null then {a.node.el} else {}
  }

  /** The primitive an action replaces. */
  ghost function SwapSite<M>(a: Action<M>): set<Prim>
    reads if a.Swap? then {a.node} else {}
  {
    if a.Swap? && a.node.el != null then {a.node.el} else {}
  }

  /** The parent of the primitive an action replaces. */
  ghost function SwapParent<M>(a: Action<M>): set<Prim>
    reads if a.Swap? then {a.node} else {}, SwapSite(a)
  {
    if a.Swap? && a.node.el != null && a.node.el.parent != null then {a.node.el.parent} else {}
  }

  /** The nodes an action mounts. */
  ghost function SwapTree<M>(a: Action<M>): set<VNode<M>> {
    if a.Swap? then a.next.Repr else {}
  }

  /** The children of a primitive that may be absent. */
  ghost function ChildrenOf(p: Prim?): seq<Prim>
    reads p
  {
    if p == null then [] else p.children
  }

  /**
   * update(oldVNode, newVNode) of vdom.ts. The old tree must be bound (it
   * has been patched) and the two trees share no node. The frame is that
   * of the action `Decide` picks, so a failing update changes nothing, a
   * text rewrite changes one primitive's text, and a replacement changes
   * only the replaced primitive's parent link, that parent's children and
   * the nodes of the new tree. The old tree's nodes are never rebound.
   */
  method Update<M>(o: VNode<M>, n: VNode<M>) returns (r: Result<VNode<M>, VDomError>)
    requires o.Valid() && n.Valid() && Bound(o) && o.Repr !! n.Repr
    modifies RetextSite(Decide(o, n))`data, SwapSite(Decide(o, n))`parent
    modifies SwapParent(Decide(o, n))`children, SwapTree(Decide(o, n))
    decreases o.Repr
    ensures r.Failure? <==> Decide(o, n).Throw?
    ensures r.Failure? ==> r.error == Decide(o, n).error
    ensures r.Success? ==> r.value == (if Decide(o, n) == Swap(o, n) then n else o)
    ensures var a := Decide(o, n);
      a.Retext? ==> a.node.el.data == TextData(a.text)
    ensures var a := Decide(o, n);
      a.Swap? ==>
        && Replaced(a.next, old(a.node.el), old(a.node.el.parent), old(ChildrenOf(a.node.el.parent)))
        && (forall m :: m in a.next.Repr && !m.kind.Content? ==> fresh(m.el))
  {
    if o.kind.Text? {
      if n.kind.Text? {
        o.el.SetTextContent(n.kind.text);
        r := Success(o);
      } else if n.kind.DOM? {
        Replace(o, n);
        r := Success(n);
      } else {
        r := Failure(NotImplemented);
      }
    } else if o.kind.DOM? {
      if !n.kind.DOM? {
        r := Failure(NotImplemented);
      } else if o.kind.tag != n.kind.tag {
        Replace(o, n);
        r := Success(n);
      } else if |o.children| == 0 {
        // update(undefined, ...) reads `.type` of undefined
        r := Failure(MissingNode);
      } else if |n.children| == 0 {
        // update(child, undefined): only a Content child throws before reading the new node
        r := Failure(if o.children[0].kind.Content? then NotImplemented else MissingNode);
      } else {
        var inner := Update(o.children[0], n.children[0]);
        if inner.Failure? {
          r := Failure(inner.error);
        } else {
          r := Success(o);
        }
      }
    } else {
      r := Failure(NotImplemented);
    }
  }

  /**
   * The state after `x.el.replaceWith(makeDOMVNode(y))`, where `e` was
   * `x`'s primitive, `p` its parent and `pc` the parent's children: `y`
   * is mounted on fresh primitives under `p`, in `e`'s place, and `e` is
   * detached; without a parent listing `e`, `y` stays detached.
   */
  ghost predicate Replaced<M>(y: VNode<M>, e: Prim, p: Prim?, pc: seq<Prim>)
    requires y.Valid()
    reads y.Repr, ElsOf(y), e, p
  {
    && y.el != null
    && (if p != null && e in pc then
          && Mounted(y, p)
          && p.children == pc[IndexOf(pc, e) := y.el]
          && e.parent == null
        else Mounted(y, null))
  }

  /** Replaces the primitive of the bound node `x` by a fresh element for the DOM node `y`. */
  method Replace<M>(x: VNode<M>, y: VNode<M>)
    requires x.Valid() && y.Valid() && y.kind.DOM? && x.el != null && x !in y.Repr
    modifies y.Repr, x.el`parent, (if x.el.parent == null then {} else {x.el.parent})`children
    ensures Replaced(y, old(x.el), old(x.el.parent), old(ChildrenOf(x.el.parent)))
    ensures forall m :: m in y.Repr && !m.kind.Content? ==> fresh(m.el)
  {
    var e := x.el;
    var el := MakeDOMVNode(y);
    ReplaceBy(e, y);
    MountedDom(y, el.parent);
  }

  /**
   * `e.replaceWith(y.el)` for a tree `y` mounted on its own primitives:
   * only the two parent links and the parent's children change, so the
   * subtrees below `y.el` stay mounted.
   */
  method ReplaceBy<M>(e: Prim, y: VNode<M>)
    requires y.Valid() && y.kind.DOM? && Mounted(y, null)
    requires forall m :: m in y.Repr && !m.kind.Content? ==> m.el != e && m.el != e.parent
    modifies e`parent, y.el`parent, (if e.parent == null then {} else {e.parent})`children
    ensures old(e.parent) != null && e in old(e.parent.children) ==>
      old(e.parent).children == old(e.parent.children)[IndexOf(old(e.parent.children), e) := y.el] &&
      y.el.parent == old(e.parent) && e.parent == null
    ensures old(e.parent) == null || e !in old(e.parent.children) ==> y.el.parent == null
    ensures y.el.children == ChildTops(y, |y.children|)
    ensures forall i :: 0 <= i < |y.children| ==> y.el !in ElsOf(y.children[i]) && Mounted(y.children[i], y.el)
  {
    var el := y.el;
    ghost var tops := ChildTops(y, |y.children|);
    assert forall i :: 0 <= i < |y.children| ==>
      e !in ElsOf(y.children[i]) && e.parent !in ElsOf(y.children[i]);
    e.ReplaceWith(el);
    assert ChildTops(y, |y.children|) == tops;
  }

  /** Each node of a tree other than its root belongs to a child's tree. */
  twostate lemma FreshNodes<M>(n: VNode<M>)
    requires n.Valid() && (!n.kind.Content? ==> fresh(n.el))
    requires forall i, m :: 0 <= i < |n.children| && m in n.children[i].Repr && !m.kind.Content? ==> fresh(m.el)
    ensures forall m :: m in n.Repr && !m.kind.Content? ==> fresh(m.el)
  {
    forall m | m in n.Repr && !m.kind.Content? && m != n
      ensures fresh(m.el)
    {
      ReprsOfMember(n.children, m);
    }
  }

  /** Concatenation regroups; stated once so the loop above need not rediscover it. */
  lemma ConcatAssoc<T>(a: seq<T>, b: seq<T>, c: seq<T>)
    ensures (a + b) + c == a + (b + c)
  {
  }
}
