/**
 * The Fiber class of src/____v2/fiber.ts: a unit of rendering work with an
 * id drawn from a shared counter, a link to the root of its fiber tree, a
 * work counter, a completion flag and an empty fragment to render into.
 */
module Fibers {
  import opened Wrappers
  import opened VNodes

  /** The render metadata a template attaches to its root fragment: the fiber and the template name. */
  datatype Meta = Meta(fiber: Fiber, template: string)

  /**
   * The static counter `Fiber.nextId`, made an object of its own. `issued`
   * records the ids handed out so far.
   */
  class FiberIds {
    var nextId: int
    ghost var issued: set<int>

    /** Every id handed out is below the next one. */
    ghost predicate Valid()
      reads this
    {
      forall id :: id in issued ==> id < nextId
    }

    /** The counter starts at 1 and has issued nothing. */
    constructor ()
      ensures Valid() && nextId == 1 && issued == {}
    {
      nextId := 1;
      issued := {};
    }
  }

  class Fiber {
    const id: int
    /** The parent passed at construction, or this fiber itself. Never null after construction. */
    var root: Fiber?
    var isCompleted: bool
    var counter: int
    var vnode: VNode<Meta>

    /**
     * `new Fiber(parent)`: takes the next id (post-incrementing the
     * counter), starts with no work done and not completed, gets a fresh
     * childless fragment, and links to `parent` itself (not to
     * `parent.root`), or to itself when there is no parent.
     */
    constructor (parent: Fiber?, ids: FiberIds)
      requires ids.Valid()
      modifies ids
      ensures id == old(ids.nextId) && ids.nextId == old(ids.nextId) + 1
      ensures id !in old(ids.issued) && ids.issued == old(ids.issued) + {id} && ids.Valid()
      ensures root == (if parent == null then this else parent)
      ensures !isCompleted && counter == 0
      ensures fresh(vnode) && vnode.Valid() && vnode.kind.Content? && vnode.children == []
      ensures vnode.data == None && Unmounted(vnode)
    {
      id := ids.nextId;
      root := parent;
      isCompleted := false;
      counter := 0;
      vnode := new VNode.ContentNode([], None);
      new;
      ids.nextId := ids.nextId + 1;
      ids.issued := ids.issued + {id};
      if parent == null {
        root := this;
      }
    }
  }
}
