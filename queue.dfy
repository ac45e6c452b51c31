// insque/remque: doubly linked queue elements whose first two fields are
// the forward and backward links.  The links are updated in place on the
// element and on its neighbours.

module Queue {

  /** The minimal element layout: a forward and a backward link. */
  class QNode {
    var fwd: QNode?
    var bkwd: QNode?

    constructor ()
      ensures fwd == null && bkwd == null
    {
      fwd := null;
      bkwd := null;
    }
  }

  /** The queue neighbours `insque` may touch: pred and its old successor. */
  function InsertFrame(pred: QNode?): set<QNode>
    reads pred
  {
    if pred == null then {} else if pred.fwd == null then {pred} else {pred, pred.fwd}
  }

  /** The neighbours `remque` may touch: the element's successor and predecessor. */
  function RemoveFrame(element: QNode?): set<QNode>
    reads element
  {
    if element == null then {}
    else
      (if element.fwd == null then {} else {element.fwd})
      + (if element.bkwd == null then {} else {element.bkwd})
  }

  /**
   * Insert element immediately after pred; a null element is a no-op and a
   * null pred makes element a one-element queue.  The conditions on aliasing
   * mirror the order of the four stores: the later store wins.
   */
  method Insque(element: QNode?, pred: QNode?)
    modifies element, InsertFrame(pred)
    ensures element == null ==> pred != null ==> pred.fwd == old(pred.fwd) && pred.bkwd == old(pred.bkwd)
    ensures element == null && pred != null && old(pred.fwd) != null ==>
      old(pred.fwd).fwd == old(pred.fwd.fwd) && old(pred.fwd).bkwd == old(pred.fwd.bkwd)
    ensures element != null ==> element.bkwd == pred
    ensures element != null && element != pred ==>
      element.fwd == (if pred == null then null else old(pred.fwd))
    ensures element != null && pred != null ==> pred.fwd == element
    ensures element != null && pred != null && old(pred.fwd) != null && old(pred.fwd) != element ==>
      old(pred.fwd).bkwd == element
    ensures (element != null && pred != null && old(pred.fwd) != null
             && old(pred.fwd) != element && old(pred.fwd) != pred) ==>
      old(pred.fwd).fwd == old(pred.fwd.fwd)
    ensures element != null && pred != null && pred != element && pred != old(pred.fwd) ==>
      pred.bkwd == old(pred.bkwd)
  {
    if element != null {
      element.fwd := if pred != null then pred.fwd else null;
      if element.fwd != null {
        element.fwd.bkwd := element;
      }
      element.bkwd := pred;
      if pred != null {
        pred.fwd := element;
      }
    }
  }

  /**
   * Unlink element from its queue; a null element is a no-op.  The element's
   * own links are left as they were.
   */
  method Remque(element: QNode?)
    modifies RemoveFrame(element)
    ensures element != null ==> element.fwd == old(element.fwd) && element.bkwd == old(element.bkwd)
    ensures element != null && old(element.fwd) != null ==> old(element.fwd).bkwd == old(element.bkwd)
    ensures element != null && old(element.bkwd) != null ==> old(element.bkwd).fwd == old(element.fwd)
    ensures element != null && old(element.fwd) != null && old(element.fwd) != old(element.bkwd) ==>
      old(element.fwd).fwd == old(element.fwd.fwd)
    ensures element != null && old(element.bkwd) != null && old(element.fwd) != old(element.bkwd) ==>
      old(element.bkwd).bkwd == old(element.bkwd.bkwd)
  {
    if element != null {
      if element.fwd != null {
        element.fwd.bkwd := element.bkwd;
      }
      if element.bkwd != null {
        element.bkwd.fwd := element.fwd;
      }
    }
  }

  /**
   * Inserting a fresh element after pred in a well-linked queue and then
   * removing it again restores pred and its successor.
   */
  method InsertThenRemove(element: QNode, pred: QNode)
    requires element != pred && element != pred.fwd
    requires pred.fwd != null ==> pred.fwd.bkwd == pred
    modifies element, InsertFrame(pred)
    ensures pred.fwd == old(pred.fwd)
    ensures pred.bkwd == old(pred.bkwd) || pred == old(pred.fwd)
    ensures old(pred.fwd) != null ==> old(pred.fwd).bkwd == pred
    ensures element.fwd == old(pred.fwd) && element.bkwd == pred
  {
    ghost var succ := pred.fwd;
    Insque(element, pred);
    assert element.fwd == succ && element.bkwd == pred;
    Remque(element);
  }
}
