/**
 * The shared stack of 1_concepts/1_3_rc_cell/src/main.rs: handles that
 * share one vector behind a reference-counted cell, so that whatever one
 * handle pushes or pops the others see.
 */
module RcCell {
  import opened Wrappers

  /** The `RefCell<Vec<T>>` the handles share; the end of `items` is the top of the stack. */
  class Cell<T> {
    var items: seq<T>

    constructor ()
      ensures items == []
    {
      items := [];
    }
  }

  class SharedStack<T> {
    const inner: Cell<T>

    /** SharedStack::new: a handle on a fresh, empty vector. */
    constructor ()
      ensures fresh(inner) && inner.items == []
    {
      inner := new Cell();
    }

    /** The derived Clone: a second handle on the same vector. */
    constructor Clone(other: SharedStack<T>)
      ensures inner == other.inner
    {
      inner := other.inner;
    }

    /** SharedStack::push: the item goes on top. */
    method Push(item: T)
      modifies inner
      ensures inner.items == old(inner.items) + [item]
    {
      inner.items := inner.items + [item];
    }

    /** SharedStack::pop: the top item taken off, None and no change on an empty stack. */
    method Pop() returns (r: Option<T>)
      modifies inner
      ensures old(inner.items) == [] ==> r == None && inner.items == []
      ensures old(inner.items) != [] ==> r == Some(old(inner.items)[|old(inner.items)| - 1])
      ensures old(inner.items) != [] ==> inner.items == old(inner.items)[..|old(inner.items)| - 1]
    {
      if inner.items == [] {
        return None;
      }
      r := Some(inner.items[|inner.items| - 1]);
      inner.items := inner.items[..|inner.items| - 1];
    }

    /** SharedStack::peek_check: false on an empty stack, otherwise what `f` says of the top item. */
    function PeekCheck(f: T -> bool): (r: bool)
      reads inner
      ensures inner.items == [] ==> !r
      ensures inner.items != [] ==> (r <==> f(inner.items[|inner.items| - 1]))
    {
      if inner.items == [] then false else f(inner.items[|inner.items| - 1])
    }

    /**
     * SharedStack::peek_inspect: the item the callback is given, the top
     * one, and None, meaning the callback is not called, on an empty stack.
     */
    method PeekInspect() returns (given: Option<T>)
      ensures given.Some? <==> inner.items != []
      ensures given.Some? ==> given.value == inner.items[|inner.items| - 1]
    {
      var items := inner.items;
      if |items| > 0 {
        given := Some(items[|items| - 1]);
      } else {
        given := None;
      }
    }

    /** SharedStack::is_empty. */
    function IsEmpty(): (r: bool)
      reads inner
      ensures r <==> |inner.items| == 0
    {
      inner.items == []
    }
  }

  /** A push then a pop through any handles on the same vector gives the item back and the old contents. */
  method PushPop<T>(s: SharedStack<T>, t: SharedStack<T>, item: T) returns (r: Option<T>)
    requires s.inner == t.inner
    modifies s.inner
    ensures r == Some(item) && s.inner.items == old(s.inner.items)
  {
    s.Push(item);
    r := t.Pop();
    assert old(s.inner.items) + [item] == s.inner.items + [item];
  }

  /**
   * main: two handles on one stack. The second handle sees what the first
   * pushed, the first sees what the second pushed, and three pops through the
   * second handle give 1, 20 and 15 and leave both handles on an empty stack.
   */
  method MainScenario() returns (inspected: Option<int>, topIsOne: bool, popped: seq<Option<int>>, emptied: bool)
    ensures inspected == Some(20) && topIsOne
    ensures popped == [Some(1), Some(20), Some(15)] && emptied
  {
    var stack := new SharedStack<int>();
    var stack2 := new SharedStack.Clone(stack);
    stack.Push(15);
    stack.Push(20);
    inspected := stack2.PeekInspect();
    stack2.Push(1);
    topIsOne := stack.PeekCheck(item => item == 1);
    var p1 := stack2.Pop();
    var p2 := stack2.Pop();
    var p3 := stack2.Pop();
    popped := [p1, p2, p3];
    emptied := stack.IsEmpty();
  }
}
