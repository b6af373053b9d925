/**
 * The double-ended linked list of 1_concepts/src/dl_list.rs, with its
 * sequential semantics. Nodes are heap objects linked by `next` and
 * `previous`; the list holds `head`, `tail` and the counter `len`.
 * The ghost spine `nodes` lists the linked nodes from head to tail and
 * the ghost `contents` lists their values: every contract is stated
 * against `contents`.
 */
module DlList {
  import opened Wrappers

  class Node<T> {
    var value: T
    var next: Node?<T>
    var previous: Node?<T>

    /** Node::new: a node holding `val`, linked to nothing. */
    constructor (val: T)
      ensures value == val && next == null && previous == null
    {
      value := val;
      next := null;
      previous := null;
    }

    /** Node::set_value: replaces the value, leaves the links alone. */
    method SetValue(newVal: T)
      modifies this
      ensures value == newVal && next == old(next) && previous == old(previous)
    {
      value := newVal;
    }

    /** Node::check_value: the predicate applied to the stored value. */
    function CheckValue(f: T -> bool): (r: bool)
      reads this
      ensures r <==> f(value)
    {
      f(value)
    }

    /** Node::get_value: a copy of the stored value. */
    function GetValue(): (r: T)
      reads this
      ensures r == value
    {
      value
    }

    /**
     * Node::add_after: links `newNode` between this node and its old
     * successor, fixing the successor's back-link.
     */
    method AddAfter(newNode: Node<T>)
      requires newNode != this && newNode != next && next != this
      modifies this, newNode, next
      ensures newNode.previous == this && newNode.next == old(next)
      ensures next == newNode && previous == old(previous)
      ensures old(next) != null ==> old(next).previous == newNode && old(next).next == old(next.next)
      ensures value == old(value) && newNode.value == old(newNode.value)
      ensures old(next) != null ==> old(next).value == old(next.value)
    {
      var nxt := next;
      newNode.previous := this;
      newNode.next := nxt;
      if nxt != null {
        nxt.previous := newNode;
      }
      next := newNode;
    }

    /**
     * Node::add_before: links `newNode` between its old predecessor and
     * this node, fixing the predecessor's forward link.
     */
    method AddBefore(newNode: Node<T>)
      requires newNode != this && newNode != previous && previous != this
      modifies this, newNode, previous
      ensures newNode.next == this && newNode.previous == old(previous)
      ensures previous == newNode && next == old(next)
      ensures old(previous) != null ==> old(previous).next == newNode && old(previous).previous == old(previous.previous)
      ensures value == old(value) && newNode.value == old(newNode.value)
      ensures old(previous) != null ==> old(previous).value == old(previous.value)
    {
      var prev := previous;
      newNode.next := this;
      newNode.previous := prev;
      if prev != null {
        prev.next := newNode;
      }
      previous := newNode;
    }

    /**
     * Node::remove: joins the two neighbours to each other and hands back
     * the value; the node itself leaves the structure.
     */
    method Remove() returns (v: T)
      requires next != this && previous != this
      requires next != null ==> next != previous
      modifies next, previous
      ensures v == value
      ensures old(next) != null ==> old(next).previous == old(previous) && old(next).next == old(next.next)
      ensures old(previous) != null ==> old(previous).next == old(next) && old(previous).previous == old(previous.previous)
      ensures old(next) != null ==> old(next).value == old(next.value)
      ensures old(previous) != null ==> old(previous).value == old(previous.value)
    {
      var nxt := next;
      var prev := previous;
      if nxt != null {
        nxt.previous := prev;
      }
      if prev != null {
        prev.next := nxt;
      }
      v := value;
    }
  }

  /** No element occurs twice. */
  ghost predicate Distinct<X>(s: seq<X>) {
    forall i, j :: 0 <= i < j < |s| ==> s[i] != s[j]
  }

  lemma DistinctPrepend<X>(x: X, s: seq<X>)
    requires Distinct(s) && x !in s
    ensures Distinct([x] + s)
  {
    var t := [x] + s;
    forall i, j | 0 <= i < j < |t|
      ensures t[i] != t[j]
    {
      assert t[j] == s[j - 1];
      if i > 0 {
        assert t[i] == s[i - 1];
      }
    }
  }

  lemma DistinctAppend<X>(s: seq<X>, x: X)
    requires Distinct(s) && x !in s
    ensures Distinct(s + [x])
  {
    var t := s + [x];
    forall i, j | 0 <= i < j < |t|
      ensures t[i] != t[j]
    {
      assert t[i] == s[i];
      if j < |s| {
        assert t[j] == s[j];
      }
    }
  }

  class DoubleLinkList<T> {
    var head: Node?<T>
    var tail: Node?<T>
    var len: nat

    /** The linked nodes, head first. */
    ghost var nodes: seq<Node<T>>
    /** The values held by the list, head first. */
    ghost var contents: seq<T>

    /**
     * The list invariant: the spine is a chain of distinct nodes whose
     * `next` and `previous` links point at their neighbours in the spine,
     * `head` and `tail` are its ends, and `len` counts it.
     */
    ghost predicate Valid()
      reads this, nodes
    {
      && |nodes| == |contents| == len
      && Distinct(nodes)
      && (forall i :: 0 <= i < |nodes| ==> nodes[i].value == contents[i])
      && (forall i {:trigger nodes[i].next} :: 0 <= i < |nodes| - 1 ==> nodes[i].next == nodes[i + 1])
      && (forall i {:trigger nodes[i].previous} :: 0 < i < |nodes| ==> nodes[i].previous == nodes[i - 1])
      && (|nodes| > 0 ==> nodes[0].previous == null && nodes[|nodes| - 1].next == null)
      && head == (if |nodes| == 0 then null else nodes[0])
      && tail == (if |nodes| == 0 then null else nodes[|nodes| - 1])
    }

    /** DoubleLinkList::new: an empty list with null ends. */
    constructor ()
      ensures Valid() && contents == [] && nodes == []
      ensures head == null && tail == null && len == 0
    {
      head := null;
      tail := null;
      len := 0;
      nodes := [];
      contents := [];
    }

    /** DoubleLinkList::len: the counter, which is the number of elements. */
    function Len(): (n: nat)
      requires Valid()
      reads this, nodes
      ensures n == |contents|
    {
      len
    }

    /** DoubleLinkList::is_empty. */
    function IsEmpty(): (b: bool)
      requires Valid()
      reads this, nodes
      ensures b <==> contents == []
      ensures b <==> Len() == 0
    {
      Len() == 0
    }

    /** DoubleLinkList::head_check: false on an empty list, else `f` of the first element. */
    function HeadCheck(f: T -> bool): (b: bool)
      requires Valid()
      reads this, nodes
      ensures b <==> |contents| > 0 && f(contents[0])
    {
      if head != null then head.CheckValue(f) else false
    }

    /** DoubleLinkList::tail_check: false on an empty list, else `f` of the last element. */
    function TailCheck(f: T -> bool): (b: bool)
      requires Valid()
      reads this, nodes
      ensures b <==> |contents| > 0 && f(contents[|contents| - 1])
    {
      if tail != null then tail.CheckValue(f) else false
    }

    /**
     * DoubleLinkList::head_inspect: `f` runs on the first element when
     * there is one; its result stands for its effect.
     */
    function HeadInspect<R>(f: T -> R): (r: Option<R>)
      requires Valid()
      reads this, nodes
      ensures r == if contents == [] then None else Some(f(contents[0]))
    {
      if head != null then Some(f(head.value)) else None
    }

    /** DoubleLinkList::tail_inspect, mirror of HeadInspect. */
    function TailInspect<R>(f: T -> R): (r: Option<R>)
      requires Valid()
      reads this, nodes
      ensures r == if contents == [] then None else Some(f(contents[|contents| - 1]))
    {
      if tail != null then Some(f(tail.value)) else None
    }

    /** DoubleLinkList::get_head: the first element, if any. */
    function GetHead(): (r: Option<T>)
      requires Valid()
      reads this, nodes
      ensures r == if contents == [] then None else Some(contents[0])
    {
      if head != null then Some(head.GetValue()) else None
    }

    /** DoubleLinkList::get_tail: the last element, if any. */
    function GetTail(): (r: Option<T>)
      requires Valid()
      reads this, nodes
      ensures r == if contents == [] then None else Some(contents[|contents| - 1])
    {
      if tail != null then Some(tail.GetValue()) else None
    }

    /** The ends are null exactly when the list is empty, and coincide exactly when it has one element. */
    lemma EndsInvariant()
      requires Valid()
      ensures (head == null) <==> (len == 0)
      ensures (tail == null) <==> (len == 0)
      ensures (head == tail) <==> (len <= 1)
      ensures (head != null && head == tail) <==> (len == 1)
    {
      if len >= 2 {
        assert head == nodes[0] && tail == nodes[len - 1] && nodes[0] != nodes[len - 1];
      }
    }

    /** Any two linked nodes: `a.next == b` exactly when `b.previous == a`. */
    lemma BackLinks()
      requires Valid()
      ensures forall a, b :: a in nodes && b in nodes ==> (a.next == b <==> b.previous == a)
    {
      forall a, b | a in nodes && b in nodes
        ensures a.next == b <==> b.previous == a
      {
        var i :| 0 <= i < |nodes| && nodes[i] == a;
        var j :| 0 <= j < |nodes| && nodes[j] == b;
        if a.next == b {
          assert i + 1 < |nodes| && nodes[i + 1] == b;
          assert j == i + 1;
        }
        if b.previous == a {
          assert j > 0 && nodes[j - 1] == a;
          assert i == j - 1;
        }
      }
    }

    /** DoubleLinkList::push_tail: appends `newVal`. */
    method PushTail(newVal: T)
      requires Valid()
      modifies this, nodes
      ensures Valid()
      ensures contents == old(contents) + [newVal]
      ensures |nodes| == |old(nodes)| + 1 && nodes[..|old(nodes)|] == old(nodes) && fresh(nodes[|old(nodes)|])
      ensures len == old(len) + 1
      ensures old(len) == 0 ==> head == tail && head != null
    {
      var newNode := new Node(newVal);
      if tail == null {
        // the compare-exchange on `tail` succeeds; the retry loop on
        // `head` succeeds at once without a concurrent remover
        tail := newNode;
        head := newNode;
        len := len + 1;
        nodes := [newNode];
        contents := [newVal];
      } else {
        LinkAfterTail(newNode);
      }
    }

    /** The non-empty case of push_tail: `newNode` goes after the old tail and becomes the tail. */
    method LinkAfterTail(newNode: Node<T>)
      requires Valid() && tail != null
      requires newNode !in nodes && newNode.next == null
      modifies this, nodes, newNode
      ensures Valid()
      ensures nodes == old(nodes) + [newNode] && contents == old(contents) + [old(newNode.value)]
      ensures len == old(len) + 1 && head == old(head)
    {
      var t := tail;
      ghost var oldNodes := nodes;
      assert t == nodes[|nodes| - 1] && t.next == null;
      t.AddAfter(newNode);
      tail := newNode;
      len := len + 1;
      nodes := nodes + [newNode];
      contents := contents + [newNode.value];
      DistinctAppend(oldNodes, newNode);
      forall i | 0 <= i < |oldNodes|
        ensures nodes[i].value == contents[i]
      {
        assert nodes[i] == oldNodes[i];
      }
      forall i | 0 <= i < |nodes| - 1
        ensures nodes[i].next == nodes[i + 1]
      {
        if i < |nodes| - 2 {
          assert nodes[i] == oldNodes[i] && nodes[i + 1] == oldNodes[i + 1];
        }
      }
      forall i | 0 < i < |nodes|
        ensures nodes[i].previous == nodes[i - 1]
      {
        if i < |nodes| - 1 {
          assert nodes[i] == oldNodes[i] && nodes[i - 1] == oldNodes[i - 1];
        }
      }
    }

    /** DoubleLinkList::push_head: prepends `newVal`. */
    method PushHead(newVal: T)
      requires Valid()
      modifies this, nodes
      ensures Valid()
      ensures contents == [newVal] + old(contents)
      ensures |nodes| == |old(nodes)| + 1 && nodes[1..] == old(nodes) && fresh(nodes[0])
      ensures len == old(len) + 1
      ensures old(len) == 0 ==> head == tail && head != null
    {
      var newNode := new Node(newVal);
      if head == null {
        // the compare-exchange on `head` succeeds; the retry loop on
        // `tail` succeeds at once without a concurrent remover
        head := newNode;
        tail := newNode;
        len := len + 1;
        nodes := [newNode];
        contents := [newVal];
      } else {
        LinkBeforeHead(newNode);
      }
    }

    /** The non-empty case of push_head: `newNode` goes before the old head and becomes the head. */
    method LinkBeforeHead(newNode: Node<T>)
      requires Valid() && head != null
      requires newNode !in nodes && newNode.previous == null
      modifies this, nodes, newNode
      ensures Valid()
      ensures nodes == [newNode] + old(nodes) && contents == [old(newNode.value)] + old(contents)
      ensures len == old(len) + 1 && tail == old(tail)
    {
      var h := head;
      ghost var oldNodes := nodes;
      assert h == nodes[0] && h.previous == null;
      h.AddBefore(newNode);
      head := h.previous;
      len := len + 1;
      nodes := [newNode] + nodes;
      contents := [newNode.value] + contents;
      DistinctPrepend(newNode, oldNodes);
      forall i | 0 < i < |nodes|
        ensures nodes[i].value == contents[i]
      {
        assert nodes[i] == oldNodes[i - 1];
      }
      forall i | 0 <= i < |nodes| - 1
        ensures nodes[i].next == nodes[i + 1]
      {
        if i > 0 {
          assert nodes[i] == oldNodes[i - 1] && nodes[i + 1] == oldNodes[i];
        }
      }
      forall i | 0 < i < |nodes|
        ensures nodes[i].previous == nodes[i - 1]
      {
        if i > 1 {
          assert nodes[i] == oldNodes[i - 1] && nodes[i - 1] == oldNodes[i - 2];
        }
      }
    }

    /** DoubleLinkList::pop_head: removes and returns the first element; None on an empty list. */
    method PopHead() returns (r: Option<T>)
      requires Valid()
      modifies this, nodes
      ensures Valid()
      ensures old(contents) == [] ==> r == None && contents == [] && len == 0
      ensures old(contents) != [] ==> r == Some(old(contents)[0]) && contents == old(contents)[1..] && len == old(len) - 1
      ensures nodes == if old(nodes) == [] then [] else old(nodes)[1..]
      ensures len == 0 ==> head == null && tail == null
    {
      EndsInvariant();
      r := None;
      if tail == head {
        // compare-exchange of `tail` from `head` to null succeeds
        tail := null;
        if head != null {
          var h := head;
          assert h == nodes[0] && h.next == null && h.previous == null;
          head := null;
          len := len - 1;
          var v := h.Remove();
          r := Some(v);
          nodes := [];
          contents := [];
        }
      } else {
        var h := head;
        if h != null {
          assert h == nodes[0] && h.next == nodes[1] && h.previous == null;
          var headNext := h.next;
          head := headNext;
          len := len - 1;
          var v := h.Remove();
          r := Some(v);
          nodes := nodes[1..];
          contents := contents[1..];
        }
      }
    }

    /** DoubleLinkList::pop_tail: removes and returns the last element; None on an empty list. */
    method PopTail() returns (r: Option<T>)
      requires Valid()
      modifies this, nodes
      ensures Valid()
      ensures old(contents) == [] ==> r == None && contents == [] && len == 0
      ensures old(contents) != [] ==> r == Some(old(contents)[|old(contents)| - 1]) && contents == old(contents)[..|old(contents)| - 1] && len == old(len) - 1
      ensures nodes == if old(nodes) == [] then [] else old(nodes)[..|old(nodes)| - 1]
      ensures len == 0 ==> head == null && tail == null
    {
      EndsInvariant();
      r := None;
      if head == tail {
        // compare-exchange of `head` from `tail` to null succeeds
        head := null;
        if tail != null {
          var t := tail;
          assert t == nodes[0] && t.next == null && t.previous == null;
          tail := null;
          len := len - 1;
          var v := t.Remove();
          r := Some(v);
          nodes := [];
          contents := [];
        }
      } else {
        var t := tail;
        if t != null {
          assert t == nodes[len - 1] && t.previous == nodes[len - 2] && t.next == null;
          var tailPrevious := t.previous;
          tail := tailPrevious;
          len := len - 1;
          var v := t.Remove();
          r := Some(v);
          nodes := nodes[..|nodes| - 1];
          contents := contents[..|contents| - 1];
        }
      }
    }

    /** Drop for DoubleLinkList: pops from the head until the list is empty. */
    method Drop()
      requires Valid()
      modifies this, nodes
      ensures Valid() && contents == [] && len == 0
      ensures head == null && tail == null
    {
      var empty := IsEmpty();
      while !empty
        invariant Valid()
        invariant empty <==> contents == []
        invariant forall k :: 0 <= k < |nodes| ==> nodes[k] in old(nodes)
        decreases |contents|
      {
        var _ := PopHead();
        empty := IsEmpty();
      }
      EndsInvariant();
    }
  }

  /** DoubleLinkList::contains (for `T: PartialEq`): scans from head to tail for `item`. */
  method Contains<T(==)>(list: DoubleLinkList<T>, item: T) returns (found: bool)
    requires list.Valid()
    ensures found <==> item in list.contents
  {
    var nodeRef := list.head;
    ghost var i := 0;
    while nodeRef != null
      invariant 0 <= i <= |list.nodes|
      invariant nodeRef == if i < |list.nodes| then list.nodes[i] else null
      invariant forall k :: 0 <= k < i ==> list.contents[k] != item
      decreases |list.nodes| - i
    {
      if nodeRef.CheckValue(x => x == item) {
        return true;
      }
      nodeRef := nodeRef.next;
      i := i + 1;
    }
    return false;
  }

  /** The values 0, 1, ..., n - 1. */
  function Range(n: nat): seq<int> {
    if n == 0 then [] else Range(n - 1) + [n - 1]
  }

  /** The first loop of the single-threaded test: pushes 0, 1, ..., n - 1 at the tail of a new list. */
  method PushRange(n: nat) returns (ddl: DoubleLinkList<int>)
    ensures fresh(ddl) && ddl.Valid() && ddl.contents == Range(n)
    ensures forall k :: 0 <= k < |ddl.nodes| ==> fresh(ddl.nodes[k])
  {
    ddl := new DoubleLinkList<int>();
    var i := 0;
    while i < n
      invariant 0 <= i <= n && ddl.Valid() && ddl.contents == Range(i)
      invariant forall k :: 0 <= k < |ddl.nodes| ==> fresh(ddl.nodes[k])
    {
      ddl.PushTail(i);
      i := i + 1;
    }
  }

  /** The second loop of the single-threaded test: every one of 0, 1, ..., n - 1 is found. */
  method FindRange(ddl: DoubleLinkList<int>, n: nat) returns (allFound: bool)
    requires ddl.Valid() && ddl.contents == Range(n)
    ensures allFound
  {
    allFound := true;
    var i := 0;
    while i < n
      invariant 0 <= i <= n && allFound
    {
      var found := Contains(ddl, i);
      ContainsRange(n, i);
      allFound := allFound && found;
      i := i + 1;
    }
  }

  /**
   * The single-threaded test: ten pushes at the tail, ten lookups that all
   * succeed, then a push at the head, after which the list has eleven
   * elements and 10 at its head.
   */
  method SingleThreadScenario() returns (allFound: bool, lenBefore: nat, headIsTen: bool, lenAfter: nat)
    ensures allFound && lenBefore == 10 && headIsTen && lenAfter == 11
  {
    var ddl := PushRange(10);
    allFound := FindRange(ddl, 10);
    assert |Range(10)| == 10;
    lenBefore := ddl.Len();
    ddl.PushHead(10);
    headIsTen := ddl.HeadCheck(val => val == 10);
    lenAfter := ddl.Len();
  }

  /** The step FindRange needs: each i below n is among the values 0, 1, ..., n - 1. */
  lemma {:induction false} ContainsRange(n: nat, i: int)
    requires 0 <= i < n
    ensures i in Range(n)
  {
    if i < n - 1 {
      ContainsRange(n - 1, i);
    }
  }

  /** Popping the only element from either end leaves a list with null ends. */
  method PopOnlyScenario() returns (fromTail: Option<int>, fromHead: Option<int>, fromEmpty: Option<int>)
    ensures fromTail == Some(1) && fromHead == Some(2) && fromEmpty == None
  {
    var ddl := new DoubleLinkList<int>();
    ddl.PushHead(1);
    fromTail := ddl.PopTail();
    assert ddl.head == null && ddl.tail == null && ddl.IsEmpty();
    ddl.PushTail(2);
    fromHead := ddl.PopHead();
    assert ddl.head == null && ddl.tail == null && ddl.IsEmpty();
    fromEmpty := ddl.PopHead();
  }
}
