/**
 * The template renderer of src/____v2/qweb.ts: a fixed table of four demo
 * templates, each a builder that makes a fresh, unmounted tree rooted at a
 * fragment carrying the render metadata.
 */
module QWeb {
  import opened Wrappers
  import opened VNodes
  import opened Fibers

  /** The render context; only string-valued entries are modelled. */
  type RenderContext = map<string, string>

  /** The four builders of the template table. */
  datatype Builder = SimpleVNode | SimpleText | MultiRoot | Hello

  datatype QWebError = NotImplementedYet

  /** The template table, keyed by template source. */
  const Templates: map<string, Builder> := map[
    "<div>simple vnode</div>" := SimpleVNode,
    "simple text node" := SimpleText,
    "<div>a</div><div>b</div>" := MultiRoot,
    "<div>Hello <t t-esc=\"name\"/></div>" := Hello
  ]

  /** `context.name` as the text builder sees it; an absent entry reads as "undefined". */
  function NameOf(context: RenderContext): string {
    if "name" in context then context["name"] else "undefined"
  }

  /** The tree each builder is meant to produce, below the metadata-carrying root fragment. */
  function TemplateShape(b: Builder, context: RenderContext): Shape {
    match b
    case SimpleVNode => SContent([SDom("div", [SText("simple vnode")])])
    case SimpleText => SContent([SText("simple text node")])
    case MultiRoot => SContent([SDom("div", [SText("a")]), SDom("div", [SText("b")])])
    case Hello => SContent([SDom("div", [SText("Hello "), SText(NameOf(context))])])
  }

  /** The result every builder promises: a valid, unmounted tree of the wanted shape whose root fragment carries `data`. */
  ghost predicate Built(r: VNode<Meta>, b: Builder, data: Meta, context: RenderContext)
    reads r.Repr
  {
    && r.Valid() && Unmounted(r)
    && r.kind.Content? && r.data == Some(data)
    && ShapeOf(r) == TemplateShape(b, context)
  }

  /** renderTemplate(template, fiber, context): look the template up, fail if absent, else build with metadata {fiber, template}. */
  method RenderTemplate(template: string, fiber: Fiber, context: RenderContext)
    returns (r: Result<VNode<Meta>, QWebError>)
    ensures r.Failure? <==> template !in Templates
    ensures r.Success? ==> Built(r.value, Templates[template], Meta(fiber, template), context)
    ensures r.Success? ==> fresh(r.value.Repr)
  {
    if template !in Templates {
      return Failure(NotImplementedYet);
    }
    var tree := Build(Templates[template], Meta(fiber, template), context);
    r := Success(tree);
  }

  /** Runs one builder of the table. */
  method Build(b: Builder, data: Meta, context: RenderContext) returns (r: VNode<Meta>)
    ensures Built(r, b, data, context)
    ensures fresh(r.Repr)
  {
    if b.SimpleVNode? {
      r := BuildSimpleVNode(data);
    } else if b.SimpleText? {
      r := BuildSimpleText(data);
    } else if b.MultiRoot? {
      r := BuildMultiRoot(data);
    } else {
      r := BuildHello(data, context);
    }
  }

  /** The builder of "<div>simple vnode</div>". */
  method BuildSimpleVNode(data: Meta) returns (r: VNode<Meta>)
    ensures Built(r, SimpleVNode, data, map[])
    ensures fresh(r.Repr)
  {
    var vn2 := new VNode<Meta>.TextNode("simple vnode");
    var vn1 := new VNode<Meta>.DomNode("div", [vn2]);
    OneChild(vn1, vn2);
    r := new VNode<Meta>.ContentNode([vn1], Some(data));
    OneChild(r, vn1);
  }

  /** The builder of "simple text node". */
  method BuildSimpleText(data: Meta) returns (r: VNode<Meta>)
    ensures Built(r, SimpleText, data, map[])
    ensures fresh(r.Repr)
  {
    var vn1 := new VNode<Meta>.TextNode("simple text node");
    r := new VNode<Meta>.ContentNode([vn1], Some(data));
    OneChild(r, vn1);
  }

  /** The builder of "<div>a</div><div>b</div>". */
  method BuildMultiRoot(data: Meta) returns (r: VNode<Meta>)
    ensures Built(r, MultiRoot, data, map[])
    ensures fresh(r.Repr)
  {
    var vn2 := new VNode<Meta>.TextNode("a");
    var vn1 := new VNode<Meta>.DomNode("div", [vn2]);
    OneChild(vn1, vn2);
    assert ShapeOf(vn1) == SDom("div", [SText("a")]);
    var vn4 := new VNode<Meta>.TextNode("b");
    var vn3 := new VNode<Meta>.DomNode("div", [vn4]);
    OneChild(vn3, vn4);
    assert ShapeOf(vn3) == SDom("div", [SText("b")]);
    assert vn1.Repr !! vn3.Repr;
    r := new VNode<Meta>.ContentNode([vn1, vn3], Some(data));
    TwoChildren(r, vn1, vn3);
  }

  /** The builder of `<div>Hello <t t-esc="name"/></div>`. */
  method BuildHello(data: Meta, context: RenderContext) returns (r: VNode<Meta>)
    ensures Built(r, Hello, data, context)
    ensures fresh(r.Repr)
  {
    var vn2 := new VNode<Meta>.TextNode("Hello ");
    var vn3 := new VNode<Meta>.TextNode(NameOf(context));
    var vn1 := new VNode<Meta>.DomNode("div", [vn2, vn3]);
    TwoChildren(vn1, vn2, vn3);
    r := new VNode<Meta>.ContentNode([vn1], Some(data));
    OneChild(r, vn1);
  }
}
