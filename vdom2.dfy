/**
 * The earlier diff engine of src/____v2/vdom2.ts. Its nodes, its surface
 * and its patch function are those of vdom.ts (`VDom.Patch`); only update
 * differs: a kind mismatch is a no-op, tags are never compared, nothing is
 * ever replaced and the old node is always returned.
 */
module VDom2 {
  import opened Wrappers
  import opened Surface
  import opened VNodes
  import opened VDom

  /**
   * patch of vdom2.ts, the same code as that of vdom.ts: text and element
   * primitives are created, bound and appended in order, and fragments are
   * flattened into the target.
   */
  method Patch<M>(target: Prim, vnode: VNode<M>)
    requires vnode.Valid()
    modifies target`children, vnode.Repr
    ensures Mounted(vnode, target)
    ensures target.children == old(target.children) + Tops(vnode)
    ensures forall m :: m in vnode.Repr && !m.kind.Content? ==> fresh(m.el)
  {
    VDom.Patch(target, vnode);
  }

  /** The two nodes are of the same kind (DOM, Text or Content), whatever their tag or text. */
  predicate SameKind(a: NodeType, b: NodeType) {
    a.DOM? == b.DOM? && a.Text? == b.Text?
  }

  /**
   * What update(o, n) of vdom2.ts does: different kinds leave everything
   * alone, Text to Text rewrites the text, DOM to DOM descends into the
   * first children (reading `children[0]` of an empty list fails) and
   * Content to Content does nothing.
   */
  function Decide2<M>(o: VNode<M>, n: VNode<M>): (a: Action<M>)
    requires o.Valid() && n.Valid()
    decreases o.Repr
    ensures !a.Swap?
    ensures a.Throw? ==> a.error == MissingNode
    ensures a.Retext? ==> OnSpine(o, a.node) && a.node.kind.Text? && a.node in o.Repr
  {
    if !SameKind(o.kind, n.kind) then Keep
    else if o.kind.Text? then Retext(o, n.kind.text)
    else if o.kind.DOM? then
      if |o.children| == 0 || |n.children| == 0 then Throw(MissingNode)
      else Decide2(o.children[0], n.children[0])
    else Keep
  }

  /**
   * update(o, n) of vdom2.ts on a bound old tree. The only surface change it
   * can make is the text of the one primitive `Decide2` picks; it returns
   * the old node unless it reads a missing first child.
   */
  method Update2<M>(o: VNode<M>, n: VNode<M>) returns (r: Result<VNode<M>, VDomError>)
    requires o.Valid() && n.Valid() && Bound(o)
    modifies RetextSite(Decide2(o, n))`data
    decreases o.Repr
    ensures r.Failure? <==> Decide2(o, n).Throw?
    ensures r.Failure? ==> r.error == MissingNode
    ensures r.Success? ==> r.value == o
    ensures var a := Decide2(o, n);
      a.Retext? ==> a.node.el.data == TextData(a.text)
  {
    if !SameKind(o.kind, n.kind) {
      r := Success(o);
    } else if o.kind.Text? {
      o.el.SetTextContent(n.kind.text);
      r := Success(o);
    } else if o.kind.DOM? {
      if |o.children| == 0 || |n.children| == 0 {
        // update(undefined, ...) or update(..., undefined) reads `.type` of undefined
        r := Failure(MissingNode);
      } else {
        var inner := Update2(o.children[0], n.children[0]);
        if inner.Failure? {
          r := Failure(inner.error);
        } else {
          r := Success(o);
        }
      }
    } else {
      r := Success(o);
    }
  }

  /** Where the vdom.ts engine rewrites a text, the vdom2.ts engine rewrites the same text. */
  lemma {:induction false} EnginesAgreeOnRetext<M>(o: VNode<M>, n: VNode<M>)
    requires o.Valid() && n.Valid() && Decide(o, n).Retext?
    ensures Decide2(o, n) == Decide(o, n)
    decreases o.Repr
  {
    if o.kind.DOM? {
      EnginesAgreeOnRetext(o.children[0], n.children[0]);
    }
  }

  /**
   * Whenever vdom.ts reads a missing first child, vdom2.ts reads it too and
   * fails the same way (not conversely: vdom2.ts also descends below a tag
   * change, where vdom.ts replaces the element).
   */
  lemma {:induction false} EnginesAgreeOnMissingNode<M>(o: VNode<M>, n: VNode<M>)
    requires o.Valid() && n.Valid() && Decide(o, n) == Throw(MissingNode)
    ensures Decide2(o, n) == Throw(MissingNode)
    decreases o.Repr
  {
    if o.kind.DOM? && |o.children| > 0 && |n.children| > 0 {
      EnginesAgreeOnMissingNode(o.children[0], n.children[0]);
    }
  }

  /** On trees of the same structure the vdom2.ts engine rewrites no text to a different one. */
  lemma {:induction false} Decide2SameShape<M>(o: VNode<M>, n: VNode<M>)
    requires o.Valid() && n.Valid() && ShapeOf(o) == ShapeOf(n)
    ensures var a := Decide2(o, n);
      a.Retext? ==> a.text == a.node.kind.text
    decreases o.Repr
  {
    if o.kind.DOM? {
      ShapesOfIndex(o, |o.children|);
      ShapesOfIndex(n, |n.children|);
      if |o.children| > 0 && |n.children| > 0 {
        Decide2SameShape(o.children[0], n.children[0]);
      }
    }
  }
}
