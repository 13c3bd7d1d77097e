/**
 * The block-based design of src/____v2/owl2.ts: a registry of compiled
 * templates and building blocks filled on first use, compiled template
 * functions that make block trees, a patch that mounts a copy of a block's
 * prebuilt element, and mount, which first picks how to obtain the tree.
 */
module Owl2 {
  import opened Wrappers
  import opened Surface

  type RenderContext = map<string, string>

  /**
   * A block's prebuilt element: an element holding one text node, which is
   * what each of the four demo blocks' markup parses to.
   */
  datatype Markup = Markup(tag: string, text: string)

  datatype BuildingBlock = BuildingBlock(id: int, el: Markup)

  /** A compiled template function `(context) => {blockId, context, el: null}`, known by its block id. */
  datatype CompiledTemplate = CompiledTemplate(blockId: int)

  /** An entry of the compiled-template table: the blocks to register and the function. */
  datatype CT = CT(blocks: seq<BuildingBlock>, fn: CompiledTemplate)

  datatype Owl2Error =
    | Boom          // compile of a template absent from the table
    | MissingBlock  // patch of a tree whose block is not registered

  /** The building blocks of the four demo templates, each with its prebuilt element. */
  const SimpleBlock := BuildingBlock(1, Markup("div", "simple block"))
  const FunctionalBlock := BuildingBlock(2, Markup("div", "functional component"))
  const ClassBlock := BuildingBlock(3, Markup("div", "class component"))
  const HelloBlock := BuildingBlock(4, Markup("div", "Hello Alex"))

  /** The compiled-template table. */
  const CompiledTemplates: map<string, CT> := map[
    "<div>simple block</div>" := CT([SimpleBlock], CompiledTemplate(1)),
    "<div>functional component</div>" := CT([FunctionalBlock], CompiledTemplate(2)),
    "<div>class component</div>" := CT([ClassBlock], CompiledTemplate(3)),
    "<div>Hello <t t-esc=\"name\"/></div>" := CT([HelloBlock], CompiledTemplate(4))
  ]

  /** The blocks of the table, indexed by their own ids. */
  const Blocks: map<int, BuildingBlock> := map[
    SimpleBlock.id := SimpleBlock,
    FunctionalBlock.id := FunctionalBlock,
    ClassBlock.id := ClassBlock,
    HelloBlock.id := HelloBlock
  ]

  /**
   * The table is consistent: block ids are unique across entries, and each
   * entry's function makes trees for one of that entry's own blocks.
   */
  lemma TableConsistent()
    ensures forall k, b :: k in CompiledTemplates && b in CompiledTemplates[k].blocks ==>
      b.id in Blocks && Blocks[b.id] == b
    ensures forall k :: k in CompiledTemplates ==>
      exists b :: b in CompiledTemplates[k].blocks && b.id == CompiledTemplates[k].fn.blockId
  {
    forall k | k in CompiledTemplates
      ensures forall b :: b in CompiledTemplates[k].blocks ==> b.id in Blocks && Blocks[b.id] == b
      ensures exists b :: b in CompiledTemplates[k].blocks && b.id == CompiledTemplates[k].fn.blockId
    {
      assert CompiledTemplates[k].blocks[0] in CompiledTemplates[k].blocks;
    }
  }

  /**
   * The block map after registering `list` into `bs` in order: each block
   * is stored under its id, a later block overriding an earlier one.
   */
  function Registered(bs: map<int, BuildingBlock>, list: seq<BuildingBlock>): (r: map<int, BuildingBlock>)
    ensures r.Keys == bs.Keys + (set b | b in list :: b.id)
    decreases |list|
  {
    if list == [] then bs
    else
      var last := list[|list| - 1];
      assert list == list[..|list| - 1] + [last];
      Registered(bs, list[..|list| - 1])[last.id := last]
  }

  /** A block no later block overrides is stored under its id. */
  lemma {:induction false} RegisteredHit(bs: map<int, BuildingBlock>, list: seq<BuildingBlock>, i: nat)
    requires i < |list| && forall j :: i < j < |list| ==> list[j].id != list[i].id
    ensures list[i].id in Registered(bs, list) && Registered(bs, list)[list[i].id] == list[i]
    decreases |list|
  {
    if i < |list| - 1 {
      var init := list[..|list| - 1];
      assert init[i] == list[i];
      RegisteredHit(bs, init, i);
    }
  }

  /** An id no block of the list carries keeps its old block. */
  lemma {:induction false} RegisteredMiss(bs: map<int, BuildingBlock>, list: seq<BuildingBlock>, k: int)
    requires k in bs && forall j :: 0 <= j < |list| ==> list[j].id != k
    ensures k in Registered(bs, list) && Registered(bs, list)[k] == bs[k]
    decreases |list|
  {
    if list != [] {
      var init := list[..|list| - 1];
      assert forall j :: 0 <= j < |init| ==> init[j] == list[j];
      RegisteredMiss(bs, init, k);
    }
  }

  /** Registering blocks taken from a table `t` into a map that agrees with `t` yields a map that agrees with `t`. */
  lemma {:induction false} RegisteredFrom(bs: map<int, BuildingBlock>, list: seq<BuildingBlock>, t: map<int, BuildingBlock>)
    requires forall k :: k in bs ==> k in t && bs[k] == t[k]
    requires forall j :: 0 <= j < |list| ==> list[j].id in t && t[list[j].id] == list[j]
    ensures forall k :: k in Registered(bs, list) ==> k in t && Registered(bs, list)[k] == t[k]
    decreases |list|
  {
    if list != [] {
      var init := list[..|list| - 1];
      assert forall j :: 0 <= j < |init| ==> init[j] == list[j];
      RegisteredFrom(bs, init, t);
    }
  }

  /** A block tree: the block to mount, the render context, and the element once mounted. */
  class BlockTree {
    const context: RenderContext
    const blockId: int
    var el: Prim?

    /** What every compiled template function returns: `{blockId, context, el: null}`. */
    constructor (fn: CompiledTemplate, context: RenderContext)
      ensures blockId == fn.blockId && this.context == context && el == null
    {
      blockId := fn.blockId;
      this.context := context;
      el := null;
    }
  }

  /** The primitive `p` is a deep copy of the prebuilt element `m`. */
  ghost predicate Denotes(p: Prim, m: Markup)
    reads p, p.children
  {
    && p.data == ElementData(m.tag)
    && |p.children| == 1
    && p.children[0].data == TextData(m.text)
    && p.children[0].children == []
    && p.children[0].parent == p
  }

  /** `el.cloneNode(true)` on a block's prebuilt element: a fresh, detached copy. */
  method CloneNode(m: Markup) returns (p: Prim)
    ensures fresh(p) && p.parent == null && Denotes(p, m) && fresh(p.children[0])
  {
    p := new Prim.CreateElement(m.tag);
    var t := new Prim.CreateTextNode(m.text);
    p.AppendChild(t);
  }

  /** The registry `qweb` with its two caches. */
  class QWebEngine {
    var templates: map<string, CompiledTemplate>
    var blocks: map<int, BuildingBlock>

    /**
     * Every cached function is that of its table entry and its block is
     * registered, and every registered block is the table's block of that id.
     */
    ghost predicate Valid()
      reads this
    {
      && (forall k :: k in templates ==>
            k in CompiledTemplates && templates[k] == CompiledTemplates[k].fn && templates[k].blockId in blocks)
      && (forall id :: id in blocks ==> id in Blocks && blocks[id] == Blocks[id])
    }

    /** The registry starts empty. */
    constructor ()
      ensures Valid() && templates == map[] && blocks == map[]
    {
      templates := map[];
      blocks := map[];
    }

    /**
     * qweb.compile(template): fails with "BOOM" before any write when the
     * table has no entry; otherwise registers the entry's blocks in order,
     * caches its function and returns it.
     */
    method Compile(template: string) returns (r: Result<CompiledTemplate, Owl2Error>)
      requires Valid()
      modifies this
      ensures Valid()
      ensures template !in CompiledTemplates ==>
        r == Failure(Boom) && templates == old(templates) && blocks == old(blocks)
      ensures template in CompiledTemplates ==>
        && r == Success(CompiledTemplates[template].fn)
        && blocks == Registered(old(blocks), CompiledTemplates[template].blocks)
        && templates == old(templates)[template := CompiledTemplates[template].fn]
        && (forall b :: b in CompiledTemplates[template].blocks ==> b.id in blocks && blocks[b.id] == b)
    {
      if template !in CompiledTemplates {
        return Failure(Boom);
      }
      var ct := CompiledTemplates[template];
      for i := 0 to |ct.blocks|
        invariant blocks == Registered(old(blocks), ct.blocks[..i])
        invariant templates == old(templates)
      {
        var b := ct.blocks[i];
        blocks := blocks[b.id := b];
        assert ct.blocks[..i + 1][..i] == ct.blocks[..i];
      }
      assert ct.blocks[..|ct.blocks|] == ct.blocks;
      templates := templates[template := ct.fn];
      r := Success(ct.fn);
      TableConsistent();
      RegisteredFrom(old(blocks), ct.blocks, Blocks);
    }

    /**
     * qweb.render(template, context): uses the cached function, compiling
     * only on a miss, and applies it to the context. A hit leaves both
     * caches unchanged; after a success the template is cached.
     */
    method Render(template: string, context: RenderContext) returns (r: Result<BlockTree, Owl2Error>)
      requires Valid()
      modifies this
      ensures Valid()
      ensures template in old(templates) ==> templates == old(templates) && blocks == old(blocks)
      ensures template !in old(templates) && template !in CompiledTemplates ==>
        r == Failure(Boom) && templates == old(templates) && blocks == old(blocks)
      ensures template !in old(templates) && template in CompiledTemplates ==>
        && blocks == Registered(old(blocks), CompiledTemplates[template].blocks)
        && templates == old(templates)[template := CompiledTemplates[template].fn]
      ensures r.Success? <==> template in CompiledTemplates
      ensures r.Success? ==>
        && fresh(r.value) && r.value.el == null && r.value.context == context
        && r.value.blockId == CompiledTemplates[template].fn.blockId
        && template in templates && r.value.blockId in blocks
    {
      var fn: CompiledTemplate;
      if template in templates {
        fn := templates[template];
      } else {
        var c := Compile(template);
        if c.Failure? {
          return Failure(c.error);
        }
        fn := c.value;
      }
      var tree := new BlockTree(fn, context);
      r := Success(tree);
    }

    /**
     * patch(tree, target): initializes the tree with a fresh copy of its
     * block's element and appends that copy as the target's last child.
     * A tree whose block is not registered fails before any change.
     */
    method Patch(tree: BlockTree, target: Prim) returns (o: Outcome<Owl2Error>)
      modifies tree`el, target`children
      ensures o.Fail? <==> tree.blockId !in blocks
      ensures o.Fail? ==> o.error == MissingBlock && tree.el == old(tree.el) && target.children == old(target.children)
      ensures o.Pass? ==>
        && tree.el != null && fresh(tree.el) && tree.el.parent == target
        && target.children == old(target.children) + [tree.el]
        && Denotes(tree.el, blocks[tree.blockId].el)
    {
      if tree.blockId !in blocks {
        return Fail(MissingBlock);
      }
      var block := blocks[tree.blockId];
      var el := CloneNode(block.el);
      tree.el := el;
      target.AppendChild(el);
      o := Pass;
    }

    /**
     * The three ways mount obtains its tree: a tree is used as it is, a
     * component class is instantiated and its template rendered with the
     * instance as context, and a function component is called and its
     * instance's render is used.
     */
    method BuildTree(c: Mountable) returns (r: Result<BlockTree, Owl2Error>)
      requires Valid()
      modifies this
      ensures Valid()
      ensures c.TreeInput? ==> r == Success(c.tree) && templates == old(templates) && blocks == old(blocks)
      ensures !c.TreeInput? && c.template in old(templates) ==>
        templates == old(templates) && blocks == old(blocks)
      ensures !c.TreeInput? && c.template !in old(templates) && c.template !in CompiledTemplates ==>
        r == Failure(Boom) && templates == old(templates) && blocks == old(blocks)
      ensures !c.TreeInput? && c.template !in old(templates) && c.template in CompiledTemplates ==>
        && blocks == Registered(old(blocks), CompiledTemplates[c.template].blocks)
        && templates == old(templates)[c.template := CompiledTemplates[c.template].fn]
      ensures !c.TreeInput? ==>
        && (r.Success? <==> c.template in CompiledTemplates)
        && (r.Success? ==> c.template in templates)
        && (r.Success? ==>
              && fresh(r.value) && r.value.el == null && r.value.context == c.context
              && r.value.blockId == CompiledTemplates[c.template].fn.blockId && r.value.blockId in blocks)
    {
      if c.TreeInput? {
        r := Success(c.tree);
      } else {
        r := Render(c.template, c.context);
      }
    }

    /**
     * mount(C, {target}): builds the tree as `BuildTree` does, then patches
     * it into the target. On success the target gains exactly one last
     * child, a copy of the chosen block's element.
     */
    method Mount(c: Mountable, target: Prim) returns (o: Outcome<Owl2Error>)
      requires Valid()
      modifies this, target`children, if c.TreeInput? then {c.tree} else {}
      ensures Valid()
      ensures c.TreeInput? ==> templates == old(templates) && blocks == old(blocks)
      ensures !c.TreeInput? && c.template in old(templates) ==>
        templates == old(templates) && blocks == old(blocks)
      ensures !c.TreeInput? && c.template !in old(templates) && c.template !in CompiledTemplates ==>
        templates == old(templates) && blocks == old(blocks)
      ensures !c.TreeInput? && c.template !in old(templates) && c.template in CompiledTemplates ==>
        && blocks == Registered(old(blocks), CompiledTemplates[c.template].blocks)
        && templates == old(templates)[c.template := CompiledTemplates[c.template].fn]
      ensures !c.TreeInput? && c.template in CompiledTemplates ==> c.template in templates
      ensures o.Fail? <==> !MountableBlock(c, old(blocks)).Some?
      ensures o.Fail? ==> target.children == old(target.children)
      ensures o.Fail? && c.TreeInput? ==> c.tree.el == old(c.tree.el)
      ensures o.Pass? ==>
        && |target.children| == |old(target.children)| + 1
        && target.children[..|old(target.children)|] == old(target.children)
        && fresh(target.children[|old(target.children)|])
        && Denotes(target.children[|old(target.children)|], Blocks[MountableBlock(c, old(blocks)).value].el)
        && (c.TreeInput? ==> c.tree.el == target.children[|old(target.children)|])
    {
      var t := BuildTree(c);
      if t.Failure? {
        return Fail(t.error);
      }
      o := Patch(t.value, target);
      if o.Pass? {
        assert target.children[..|old(target.children)|] == old(target.children);
      }
    }
  }

  /**
   * What mount is given. A function component stands for a function whose
   * instance renders `template` with `context`; a component class for a
   * class with static `template` whose instance fields are `context`.
   */
  datatype Mountable =
    | TreeInput(tree: BlockTree)
    | ComponentInput(template: string, context: RenderContext)
    | FnInput(template: string, context: RenderContext)

  /** The block a mount of `c` ends up copying, given the registered blocks; None when mount fails. */
  ghost function MountableBlock(c: Mountable, blocks: map<int, BuildingBlock>): Option<int> {
    if c.TreeInput? then
      if c.tree.blockId in blocks then Some(c.tree.blockId) else None
    else if c.template in CompiledTemplates then Some(CompiledTemplates[c.template].fn.blockId)
    else None
  }
}
