/** cutils/list.h and list.cpp: circular doubly linked lists threaded through their elements, with
    the list head on the cycle. */
module Ring {

  class ListNode {
    var next: ListNode
    var prev: ListNode

    /** Storage for a node; its links mean nothing until it is put on a list. */
    constructor ()
    {
      next, prev := this, this;
    }
  }

  /** c is a cycle: prev undoes next all the way round and no node is met twice. */
  ghost predicate IsCycle(c: seq<ListNode>)
    requires c != []
    reads c
  {
    && (forall i, j :: 0 <= i < j < |c| ==> c[i] != c[j])
    && (forall i :: 0 <= i < |c| - 1 ==> c[i].next == c[i + 1])
    && (forall i :: 1 <= i < |c| ==> c[i].prev == c[i - 1])
    && c[|c| - 1].next == c[0] && c[0].prev == c[|c| - 1]
  }

  /** The cycle from head runs through items, in order, and back. */
  ghost predicate IsRing(head: ListNode, items: seq<ListNode>)
    reads head, items
  {
    IsCycle([head] + items)
  }

  method ListInit(node: ListNode)
    modifies node
    ensures IsRing(node, [])
  {
    node.next := node;
    node.prev := node;
  }

  method ListAddTail(head: ListNode, item: ListNode, ghost items: seq<ListNode>)
    requires IsRing(head, items) && item != head && item !in items
    modifies head, item, head.prev
    ensures IsRing(head, items + [item]) && head.prev == item
  {
    ghost var c := [head] + items;
    assert head.prev == c[|items|];
    item.next := head;
    item.prev := head.prev;
    head.prev.next := item;
    head.prev := item;
    assert [head] + (items + [item]) == c + [item];
  }

  /** The removed node keeps its own links. */
  method ListRemove(item: ListNode, ghost head: ListNode, ghost items: seq<ListNode>, ghost k: nat)
    requires IsRing(head, items) && k < |items| && items[k] == item
    modifies item.next, item.prev
    ensures IsRing(head, items[..k] + items[k + 1..])
    ensures item.next == old(item.next) && item.prev == old(item.prev)
  {
    ghost var c := [head] + items;
    assert item == c[k + 1] && item.prev == c[k];
    assert item.next == if k + 1 < |items| then c[k + 2] else head;
    item.next.prev := item.prev;
    item.prev.next := item.next;
    ghost var d := c[..k + 1] + c[k + 2..];
    assert d == [head] + (items[..k] + items[k + 1..]);
    forall i, j | 0 <= i < j < |d| ensures d[i] != d[j] {
      assert d[i] == c[if i <= k then i else i + 1] && d[j] == c[if j <= k then j else j + 1];
    }
    forall i | 0 <= i < |d| - 1 ensures d[i].next == d[i + 1] && d[i + 1].prev == d[i] {
      assert d[i] == c[if i <= k then i else i + 1] && d[i + 1] == c[if i + 1 <= k then i + 1 else i + 2];
    }
  }

  predicate ListEmpty(list: ListNode)
    reads list
  {
    list == list.next
  }

  function ListHead(list: ListNode): ListNode
    reads list
  {
    list.next
  }

  function ListTail(list: ListNode): ListNode
    reads list
  {
    list.prev
  }

  /** The three macros answer for the sequence; on an empty list both ends are the head itself. */
  lemma RingEnds(head: ListNode, items: seq<ListNode>)
    requires IsRing(head, items)
    ensures ListEmpty(head) <==> items == []
    ensures ListHead(head) == if items == [] then head else items[0]
    ensures ListTail(head) == if items == [] then head else items[|items| - 1]
  {
    var c := [head] + items;
    assert c[0].next == if items == [] then head else c[1];
    assert c[|items|] == if items == [] then head else items[|items| - 1];
    if items != [] {
      assert c[0] != c[1];
    }
  }

  /** The links determine the sequence: a node heads at most one ring. */
  lemma RingUnique(head: ListNode, xs: seq<ListNode>, ys: seq<ListNode>)
    requires IsRing(head, xs) && IsRing(head, ys)
    ensures xs == ys
  {
    var short, long := if |xs| <= |ys| then xs else ys, if |xs| <= |ys| then ys else xs;
    SameStart(head, short, long, |short|);
    var c, d := [head] + short, [head] + long;
    assert c[|short|] == c[..|short| + 1][|short|] == d[..|short| + 1][|short|] == d[|short|];
    assert c[|short|].next == head;
    assert d[|short|].next == head;
    assert forall i :: 0 < i < |d| ==> d[i] != d[0];
    assert short == c[1..] && long == d[1..];
  }

  lemma {:induction false} SameStart(head: ListNode, xs: seq<ListNode>, ys: seq<ListNode>, k: nat)
    requires IsRing(head, xs) && IsRing(head, ys) && k <= |xs| <= |ys|
    ensures ([head] + xs)[..k + 1] == ([head] + ys)[..k + 1]
  {
    if k > 0 {
      SameStart(head, xs, ys, k - 1);
      var c, d := [head] + xs, [head] + ys;
      assert c[k - 1] == c[..k][k - 1] == d[..k][k - 1] == d[k - 1];
      assert c[k - 1].next == c[k] && d[k - 1].next == d[k];
      assert c[..k + 1] == c[..k] + [c[k]] && d[..k + 1] == d[..k] + [d[k]];
    }
  }

  /** list_for_each meets every element once, in order. */
  method ForEach(list: ListNode, ghost items: seq<ListNode>) returns (visited: seq<ListNode>)
    requires IsRing(list, items)
    ensures visited == items
  {
    visited := [];
    ghost var c := [list] + items;
    assert list == c[0];
    var node := list.next;
    while node != list
      invariant |visited| <= |items| && visited == items[..|visited|]
      invariant node == (c + [list])[|visited| + 1]
      decreases |items| - |visited|
    {
      assert node == c[|visited| + 1] == items[|visited|];
      visited := visited + [node];
      node := node.next;
    }
    assert forall i :: 0 < i < |c| ==> c[i] != c[0];
  }

  function Reversed<T>(s: seq<T>): (r: seq<T>)
    ensures |r| == |s| && forall i :: 0 <= i < |s| ==> r[i] == s[|s| - 1 - i]
  {
    if s == [] then [] else Reversed(s[1..]) + [s[0]]
  }

  /** list_for_each_reverse meets the mirror image. */
  method ForEachReverse(list: ListNode, ghost items: seq<ListNode>) returns (visited: seq<ListNode>)
    requires IsRing(list, items)
    ensures visited == Reversed(items)
  {
    visited := [];
    ghost var c := [list] + items;
    var node := list.prev;
    while node != list
      invariant |visited| <= |items|
      invariant forall i :: 0 <= i < |visited| ==> visited[i] == items[|items| - 1 - i]
      invariant node == c[|items| - |visited|]
      decreases |items| - |visited|
    {
      assert node != c[0] && node == items[|items| - |visited| - 1];
      visited := visited + [node];
      node := node.prev;
    }
    assert forall i :: 0 < i < |c| ==> c[i] != c[0];
  }
}
