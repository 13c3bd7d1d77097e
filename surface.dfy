/**
 * The display surface the runtime renders into, reduced to what the core
 * uses of it: element and text primitives, each with an ordered list of
 * children and a parent link, and the operations createElement,
 * createTextNode, appendChild, the textContent setter and replaceWith.
 */
module Surface {

  /** What a primitive is: an element with a tag, or a text node with its data. */
  datatype PrimData = ElementData(tag: string) | TextData(text: string)

  /** Index of the first occurrence of `x` in `s`. */
  function IndexOf<T(==)>(s: seq<T>, x: T): (i: nat)
    requires x in s
    ensures i < |s| && s[i] == x
    ensures forall j :: 0 <= j < i ==> s[j] != x
  {
    if s[0] == x then 0 else 1 + IndexOf(s[1..], x)
  }

  class Prim {
    var data: PrimData
    var children: seq<Prim>
    var parent: Prim?

    /** document.createElement(tag) */
    constructor CreateElement(tag: string)
      ensures data == ElementData(tag) && children == [] && parent == null
    {
      data := ElementData(tag);
      children := [];
      parent := null;
    }

    /** document.createTextNode(text) */
    constructor CreateTextNode(text: string)
      ensures data == TextData(text) && children == [] && parent == null
    {
      data := TextData(text);
      children := [];
      parent := null;
    }

    /** appendChild for a detached primitive: it becomes the last child. */
    method AppendChild(c: Prim)
      requires c.parent == null
      modifies this`children, c`parent
      ensures children == old(children) + [c]
      ensures c.parent == this
    {
      children := children + [c];
      c.parent := this;
    }

    /** The textContent setter on a text primitive replaces its data. */
    method SetTextContent(text: string)
      requires data.TextData?
      modifies this`data
      ensures data == TextData(text)
    {
      data := TextData(text);
    }

    /**
     * replaceWith(node) for a detached `node`: `node` takes this primitive's
     * place in its parent's children and this primitive is detached. Without
     * a parent nothing happens. (A parent that does not list this primitive
     * cannot occur on a real surface; the model leaves everything unchanged.)
     */
    method ReplaceWith(node: Prim)
      requires node.parent == null && node != this && node != parent
      modifies this`parent, node`parent, (if parent == null then {} else {parent})`children
      ensures old(parent) == null || this !in old(parent.children) ==>
        parent == old(parent) && node.parent == null &&
        (old(parent) != null ==> old(parent).children == old(parent.children))
      ensures old(parent) != null && this in old(parent.children) ==>
        old(parent).children == old(parent.children)[IndexOf(old(parent.children), this) := node] &&
        node.parent == old(parent) && parent == null
    {
      var p := parent;
      if p != null && this in p.children {
        var i := IndexOf(p.children, this);
        p.children := p.children[i := node];
        node.parent := p;
        parent := null;
      }
    }
  }
}
