/**
 * Two end-to-end uses of the engine, as the runtime's own usage shows them:
 * a text node mounted and then updated in place, and the "Hello" template
 * rendered and mounted into an empty container.
 */
module Scenarios {
  import opened Wrappers
  import opened Surface
  import opened VNodes
  import opened VDom
  import opened Fibers
  import opened QWeb

  /**
   * Mount Text "abc" into an empty container, then update it with
   * Text "def": the container still holds the very same primitive, which
   * now reads "def".
   */
  method UpdateTextKeepsPrimitive() returns (fixture: Prim, text: Prim)
    ensures fixture.children == [text] && text.data == TextData("def")
  {
    fixture := new Prim.CreateElement("div");
    var vnode := new VNode<()>.TextNode("abc");
    Patch(fixture, vnode);
    text := fixture.children[0];
    var next := new VNode<()>.TextNode("def");
    var r := Update(vnode, next);
    assert r == Success(vnode);
  }

  /**
   * Render the "Hello" template with name "Alex" and mount it into an empty
   * container: the container holds one div whose children are the texts
   * "Hello " and "Alex", in that order.
   */
  method MountHello() returns (fixture: Prim)
    ensures |fixture.children| == 1 && fixture.children[0].data == ElementData("div")
    ensures |fixture.children[0].children| == 2
    ensures fixture.children[0].children[0].data == TextData("Hello ")
    ensures fixture.children[0].children[1].data == TextData("Alex")
  {
    fixture := new Prim.CreateElement("div");
    var ids := new FiberIds();
    var fiber := new Fiber(null, ids);
    var r := RenderTemplate("<div>Hello <t t-esc=\"name\"/></div>", fiber, map["name" := "Alex"]);
    var tree := r.value;
    Patch(fixture, tree);
    HelloContent(tree, fixture, map["name" := "Alex"]);
  }

  /**
   * A mounted "Hello" tree puts exactly one div into its container, holding
   * the text "Hello " followed by the context's name.
   */
  lemma HelloContent(tree: VNode<Meta>, host: Prim, context: RenderContext)
    requires tree.Valid() && ShapeOf(tree) == TemplateShape(Hello, context)
    requires Mounted(tree, host)
    ensures |Tops(tree)| == 1 && Tops(tree)[0] != null
    ensures Tops(tree)[0].data == ElementData("div") && Tops(tree)[0].parent == host
    ensures |Tops(tree)[0].children| == 2
    ensures Tops(tree)[0].children[0].data == TextData("Hello ")
    ensures Tops(tree)[0].children[1].data == TextData(NameOf(context))
  {
    ShapesOfIndex(tree, |tree.children|);
    var div := tree.children[0];
    assert Mounted(div, host);
    ShapesOfIndex(div, |div.children|);
    var hello, name := div.children[0], div.children[1];
    assert hello.kind == Text("Hello ") && name.kind == Text(NameOf(context));
    assert tree.children[..1] == tree.children;
    ChildTopsStep(tree, 0);
    assert Tops(tree) == [div.el];
    assert div.children[..2] == div.children;
    ChildTopsStep(div, 0);
    ChildTopsStep(div, 1);
    assert div.el.children == [hello.el, name.el];
    assert Mounted(hello, div.el) && Mounted(name, div.el);
  }

  /** A mounted `<div>t</div>` is one div element holding one text primitive `t`. */
  lemma DivWithText<M>(d: VNode<M>, host: Prim, t: string)
    requires d.Valid() && ShapeOf(d) == SDom("div", [SText(t)]) && Mounted(d, host)
    ensures Tops(d) == [d.el] && d.el != null && d.el.data == ElementData("div") && d.el.parent == host
    ensures |d.el.children| == 1 && d.el.children[0].data == TextData(t)
  {
    ShapesOfIndex(d, |d.children|);
    assert d.children[..1] == d.children;
    ChildTopsStep(d, 0);
    assert Mounted(d.children[0], d.el);
  }

  /**
   * A mounted multi-root tree puts two distinct divs into its container,
   * holding the texts "a" and "b" in that order.
   */
  lemma MultiRootContent(tree: VNode<Meta>, host: Prim)
    requires tree.Valid() && ShapeOf(tree) == TemplateShape(MultiRoot, map[])
    requires Mounted(tree, host)
    ensures |Tops(tree)| == 2 && Tops(tree)[0] != null && Tops(tree)[1] != null
    ensures Tops(tree)[0] != Tops(tree)[1]
    ensures Tops(tree)[0].data == ElementData("div") && Tops(tree)[1].data == ElementData("div")
    ensures |Tops(tree)[0].children| == 1 && Tops(tree)[0].children[0].data == TextData("a")
    ensures |Tops(tree)[1].children| == 1 && Tops(tree)[1].children[0].data == TextData("b")
  {
    ShapesOfIndex(tree, |tree.children|);
    var da, db := tree.children[0], tree.children[1];
    DivWithText(da, host, "a");
    DivWithText(db, host, "b");
    assert tree.children[..2] == tree.children;
    ChildTopsStep(tree, 0);
    ChildTopsStep(tree, 1);
    assert Tops(tree) == [da.el, db.el];
    // the two elements hold different texts, so they are different primitives
    assert da.el.children[0].data != db.el.children[0].data;
  }
}
