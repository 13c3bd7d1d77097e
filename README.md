# Owl 2 virtual DOM: mount, diff, fibers and templates

This project models the core of the second-generation Owl rendering
prototype (`src/____v2/`):

- the virtual-node tree with its three node kinds: DOM element, Text and
  Content (a fragment with no primitive of its own);
- `patch`, which mounts a tree into a target on the display surface;
- the two diff engines `update` of `vdom.ts` and of `vdom2.ts`;
- the `Fiber` class and its shared id counter;
- the template table of `qweb.ts` and its four hand-written tree builders;
- the block-based design of `owl2.ts`, with its registry of compiled
  templates and building blocks, its block `patch` and the three ways
  `mount` obtains a tree.

The display surface is abstract. A `Surface.Prim` is an element (with a tag)
or a text node (with its data). It has a mutable ordered list of children
and a parent link. Its operations are createElement, createTextNode,
appendChild, the textContent setter and replaceWith. Virtual nodes are
objects (`VNodes.VNode`) whose only mutable field is `el`, the primitive
they are bound to. Primitives are compared by reference, as the source's
tests do with `toBe`.

What is proved, in short:

- `patch` binds every Text and DOM node to a fresh primitive of the right
  kind and content. It appends the tree's top-level primitives after the
  target's existing children, in order, and flattens Content nodes into
  their host (`Mounted`, `Tops`).
- `update` of `vdom.ts` picks exactly one action (`VDom.Decide`): rewrite
  one text, replace one primitive, or throw. Its frame is exactly that
  action's footprint. A DOM→DOM update with the same tag descends only into
  `children[0]` and discards the inner result. That inner update may
  replace a primitive below the returned old node, and the old tree keeps
  pointing at the detached primitive.
- `update` of `vdom2.ts` never replaces anything and always returns the old
  node, unless it reads a missing first child. The two engines agree
  wherever `vdom.ts` rewrites a text or reads a missing child.
- Every template builder returns a fresh, unmounted, Content-rooted tree of
  a fixed shape carrying `{fiber, template}`. Mounting the "Hello" and
  multi-root trees yields exactly the expected primitives.
- The owl2 registry only ever caches table entries. `compile` fails before
  any write on an unknown key. `render` compiles only on a cache miss.

## Model

| member | source | states |
|---|---|---|
| `Surface.Prim.CreateElement` | src/____v2/vdom.ts:47 | a fresh, detached, childless element primitive with the given tag |
| `Surface.Prim.CreateTextNode` | src/____v2/vdom.ts:42 | a fresh, detached, childless text primitive holding the given string |
| `Surface.Prim.AppendChild` | src/____v2/vdom.ts:44 | a detached primitive becomes the last child of the target, whose other children are unchanged, and its parent is the target |
| `Surface.Prim.SetTextContent` | src/____v2/vdom.ts:85 | the text primitive's data becomes the new string; nothing else changes |
| `Surface.Prim.ReplaceWith` | src/____v2/vdom.ts:88 | the new primitive takes the old one's index in the old one's parent, and the old one is detached; without a parent nothing changes |
| `VNodes.VNode.TextNode` | src/____v2/vdom.ts:21-25 | a Text node with the given text, no children and `el` null |
| `VNodes.VNode.DomNode` | src/____v2/vdom.ts:14-19 | a DOM node with the given tag and children, `el` null; its nodes are its own plus the children's |
| `VNodes.VNode.ContentNode` | src/____v2/vdom.ts:27-30 | a Content node with the given children and metadata, `el` null |
| `VNodes.MountedIsBound` | src/____v2/vdom.ts:39-60 | a mounted tree has a primitive for every Text and DOM node, and text primitives for Text nodes: it is a valid old tree for `update` |
| `VDom.Patch` | src/____v2/vdom.ts:39-60 | after patch the tree is mounted under the target, every Text/DOM node holds a fresh primitive, and the target's children are its old children followed by the tree's top-level primitives |
| `VDom.PatchDom` | src/____v2/vdom.ts:46-53 | a DOM node gets one fresh element with its tag, appended as the target's last child; its children are mounted inside that element, in order |
| `VDom.PatchContent` | src/____v2/vdom.ts:54-58 | a Content node creates no primitive; its children's primitives are appended straight to the target, in order, so an empty Content leaves the target unchanged |
| `VDom.PatchChildren` | src/____v2/vdom.ts:50-52 | mounting the children one by one appends their top-level primitives to the host in child order and mounts each child under the host |
| `VDom.MakeDOMVNode` | src/____v2/vdom.ts:62-69 | returns a fresh, detached element bound to the DOM node, with the node's whole tree mounted below it on fresh primitives |
| `VDom.Decide` | src/____v2/vdom.ts:80-110 | the one action update takes: Text→Text rewrites, Text→DOM and DOM→DOM with another tag replace, same-tag DOM descends into `children[0]`, all other transitions throw; the acted-on node is always on the first-child spine of the old tree |
| `VDom.Update` | src/____v2/vdom.ts:80-110 | fails exactly when `Decide` throws, with its error and no change; a text rewrite sets only that primitive's text and returns the old node; a replacement puts a freshly mounted element in the old primitive's place, detaches the old one, and returns the new node only when the replaced node is the root |
| `VDom.Replace` | src/____v2/vdom.ts:100 | `old.el.replaceWith(makeDOMVNode(new))`: the new tree is mounted on fresh primitives in the old primitive's slot of its parent, and the old primitive is detached |
| `VDom.DecideSameShape` | src/____v2/vdom.ts:84-98 | updating with a tree of the same structure never replaces a primitive, and any text it rewrites gets the text its old node already has |
| `VDom.OnSpineFirstChild` | src/____v2/vdom.ts:96-98 | whatever a same-tag DOM update acts on lies in the first child's tree, never in a sibling at index 1 or more |
| `VDom2.Patch` | src/____v2/vdom2.ts:30-50 | the same contract as `VDom.Patch`: fresh primitives bound, appended in order, fragments flattened |
| `VDom2.Decide2` | src/____v2/vdom2.ts:60-76 | the action of the older update never replaces; a kind mismatch and Content→Content do nothing; the only error is reading a missing first child |
| `VDom2.Update2` | src/____v2/vdom2.ts:60-76 | returns the old node whenever it succeeds; changes at most one text primitive's data, to the new text; tags are never compared |
| `VDom2.EnginesAgreeOnRetext` | src/____v2/vdom2.ts:64-72 | where the vdom.ts engine rewrites a text, the vdom2.ts engine rewrites the same primitive to the same text |
| `VDom2.EnginesAgreeOnMissingNode` | src/____v2/vdom2.ts:70-72 | whenever the vdom.ts engine reads a missing first child, the vdom2.ts engine fails the same way |
| `VDom2.Decide2SameShape` | src/____v2/vdom2.ts:64-68 | on trees of the same structure the older engine rewrites a text only to the text its old node already has |
| `Fibers.FiberIds.constructor` | src/____v2/fiber.ts:4 | the shared id counter starts at 1 with no id handed out |
| `Fibers.Fiber.constructor` | src/____v2/fiber.ts:3-15 | the new fiber's id is the counter's old value and the counter grows by exactly 1, so ids are distinct; root is the parent itself, or the fiber when there is none; counter 0, not completed, and a fresh empty Content vnode |
| `QWeb.RenderTemplate` | src/____v2/qweb.ts:13-20 | fails exactly on a name that is not one of the table's own keys; otherwise returns a fresh unmounted tree of that template's shape whose Content root carries `{fiber, template}` |
| `QWeb.Build` | src/____v2/qweb.ts:23-65 | each builder returns a fresh, valid, unmounted tree of its template's shape with the given metadata on the root |
| `QWeb.BuildSimpleVNode` | src/____v2/qweb.ts:23-30 | builds Content[div[Text "simple vnode"]] |
| `QWeb.BuildSimpleText` | src/____v2/qweb.ts:32-37 | builds Content[Text "simple text node"] |
| `QWeb.BuildMultiRoot` | src/____v2/qweb.ts:39-51 | builds Content[div[Text "a"], div[Text "b"]], in that order |
| `QWeb.BuildHello` | src/____v2/qweb.ts:53-65 | builds Content[div[Text "Hello ", Text name]], in that order |
| `Scenarios.HelloContent` | src/____v2/qweb.ts:53-65 | a mounted Hello tree contributes one div whose two children read "Hello " and the name |
| `Scenarios.MultiRootContent` | src/____v2/qweb.ts:39-51 | a mounted multi-root tree contributes two distinct divs holding "a" and "b", in order |
| `Scenarios.MountHello` | src/____v2/vdom.ts:39-60 | rendering Hello with name "Alex" and patching it into an empty container leaves exactly `<div>Hello Alex</div>` there |
| `Scenarios.UpdateTextKeepsPrimitive` | src/____v2/vdom.ts:84-86 | after Text "abc" is patched and updated to Text "def", the container holds the same primitive, now reading "def" |
| `Owl2.TableConsistent` | src/____v2/owl2.ts:126-194 | every table block is the registry's block of its id, and each entry's function uses a block of that entry |
| `Owl2.Registered` | src/____v2/owl2.ts:101-103 | registering blocks adds exactly their ids to the map's keys |
| `Owl2.RegisteredHit` | src/____v2/owl2.ts:101-103 | a block no later block overrides ends up stored under its id |
| `Owl2.RegisteredMiss` | src/____v2/owl2.ts:101-103 | an id no registered block carries keeps its previous block |
| `Owl2.BlockTree.constructor` | src/____v2/owl2.ts:140-142 | a compiled template function returns `{blockId, context, el: null}` with its fixed block id and the given context |
| `Owl2.CloneNode` | src/____v2/owl2.ts:136 | `cloneNode(true)` yields a fresh, detached element equal to the block's prebuilt element |
| `Owl2.QWebEngine.constructor` | src/____v2/owl2.ts:83-87 | the registry starts with both maps empty |
| `Owl2.QWebEngine.Compile` | src/____v2/owl2.ts:96-106 | a key that is not one of the table's own keys fails with BOOM and changes neither map; a known key registers every block of the entry under its id, caches the entry's function and returns it |
| `Owl2.QWebEngine.Render` | src/____v2/owl2.ts:88-94 | a cached key leaves both maps unchanged; a miss compiles; success returns a fresh tree with the entry's block id, the context and `el` null, and that block is registered |
| `Owl2.QWebEngine.Patch` | src/____v2/owl2.ts:113-117 | binds the tree to a fresh copy of its block's element, appended as the target's last child; an unregistered block fails without change |
| `Owl2.QWebEngine.BuildTree` | src/____v2/owl2.ts:20-43 | a tree is used as it is and both caches stay unchanged; a component class or function component renders its template with its context, compiling and caching it on a miss exactly as `Render` does |
| `Owl2.QWebEngine.Mount` | src/____v2/owl2.ts:20-32 | on success the target gains exactly one last child, a fresh copy of the chosen block's element, which ignores the context, and a tree input's `el` is that copy; on failure the target and the tree are unchanged; a tree input leaves both caches unchanged, and a component or function input updates them as `Render` does |

## Left out

- Real DOM APIs are replaced by `Surface.Prim`. `makeEl` (innerHTML parsing, src/____v2/owl2.ts:196-200) is replaced by the parsed value it yields: an element holding one text node (`Owl2.Markup`).
- src/____v2/owl.ts (promise plumbing over a scheduler module, and a `render` that discards its tree) is not part of this model. Nor is the scheduler itself: no code for it is shown.
- Asynchrony: `mount` is `async` in owl2.ts; the model is synchronous. `mount` returns nothing in the source, so `Owl2.QWebEngine.Mount` returns only success or failure.
- Runtime reflection in `mount` (`typeof`, `prototype instanceof`) becomes the three-case datatype `Owl2.Mountable`. A function component is modelled as one whose instance renders a template with a context, as every function component of the source's usage does; arbitrary JavaScript functions are not modelled.
- The exported `render` of owl2.ts (lines 45-47) is `qweb.render` with a default empty context; it is modelled by `Owl2.QWebEngine.Render`.
- `qweb.rawTemplates` is never read or written and is left out. `BuildingBlock.textNodes` is always empty and is left out.
- Render contexts are maps from strings to strings. A missing `name` in the Hello builder of qweb.ts makes a Text node whose text is the value `undefined`; the model gives it the string "undefined". That is what `patch` shows for it (createTextNode converts the value), but when such a node is the new side of a Text→Text update, the source's `textContent` assignment yields the empty string while the model writes "undefined".
- The static `Fiber.nextId` is an explicit `FiberIds` object passed to the constructor. Ids are unbounded integers: the precision limit of JavaScript numbers is not modelled.
- Trees passed to `VDom.Update` must share no node with each other, and the old tree must be bound (every Text/DOM node has a primitive), as the source's comment at src/____v2/vdom.ts:71-73 demands. Aliasing between the old and new tree is not modelled.
- JavaScript `TypeError`s from reading `children[0]` of an empty list are modelled as the error `MissingNode`.
- Surface.Prim.ReplaceWith: when the parent does not list the primitive (impossible on a real surface), the model changes nothing.
- Surface.Prim.AppendChild: only appends detached primitives, which is the only way the core uses it; moving an attached primitive is not modelled.
- VDom.Patch: does not state that the primitives of different nodes are pairwise distinct, only that each is fresh.
- The template tables of qweb.ts and owl2.ts (`templates`, `qweb.templates`, `qweb.blocks`, `compiledTemplates`) are plain JavaScript objects. Lookups are modelled on their own keys only: names inherited from `Object.prototype` (such as `constructor` or `toString`) give truthy lookups in the source, which then returns a non-tree or throws a `TypeError` instead of failing as modelled. Such names are out of scope.
- Full positional or keyed child diffing, removal or appending of excess children, and Content↔other transitions are not implemented by the source and are not modelled beyond its failures.
- Tests that expect behaviour the code lacks are not modelled as properties: the Content→Content update of tests/____v2/vdom.test.ts:140-166 (the code throws), and the owl2 updates of tests/____v2/owl2.test.ts:124-155 (a tree used as a template key fails with BOOM). For the "simple text node" and multi-root owl2 tests, the code throws BOOM for the templates those tests use: the compiled-template table has no entry for them, and `Owl2.QWebEngine.Compile` models that.
