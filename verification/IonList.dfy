// Model of ion_alloc_list.h: a circular, intrusive, doubly linked list through a
// header node. container_of is the identity here: the links and the payload of a
// buffer are fields of one node, and the header's payload is never looked at.
module IonList {

  /** One entry of the buffer list: where the buffer lies and the descriptor that shares it. */
  datatype Buffer = Buffer(phy: nat, vir: nat, size: nat, fd: int)

  class Node {
    var next: Node?
    var prev: Node?
    var buf: Buffer
    ghost var freed: bool

    constructor (b: Buffer)
      ensures buf == b && next == null && prev == null && !freed
    {
      next, prev, buf, freed := null, null, b, false;
    }
  }

  function After(i: nat, n: nat): nat
    requires i < n
  {
    if i + 1 == n then 0 else i + 1
  }

  function Before(i: nat, n: nat): nat
    requires i < n
  {
    if i == 0 then n - 1 else i - 1
  }

  /** c lists the nodes of one circle, from the header on: pairwise distinct, next goes one on and
      prev one back, both closing at the header. */
  ghost predicate Circle(c: seq<Node>)
    reads c
  {
    && |c| > 0
    && (forall i, j :: 0 <= i < j < |c| ==> c[i] != c[j])
    && (forall i :: 0 <= i < |c| ==> c[i].next == c[After(i, |c|)])
    && (forall i :: 0 <= i < |c| ==> c[i].prev == c[Before(i, |c|)])
  }

  /** AW_MEM_INIT_LIST_HEAD */
  method InitHead(head: Node)
    modifies head`next, head`prev
    ensures Circle([head])
  {
    head.next := head;
    head.prev := head;
  }

  /** __aw_list_add: the four pointer writes. */
  method LinkBetween(node: Node, prev: Node, next: Node)
    requires node != prev && node != next
    modifies next`prev, node`next, node`prev, prev`next
    ensures next.prev == node && node.next == next && node.prev == prev && prev.next == node
  {
    next.prev := node;
    node.next := next;
    node.prev := prev;
    prev.next := node;
  }

  /** aw_mem_list_add_tail: the new node becomes the last one of the circle. */
  method AddTail(node: Node, head: Node, ghost c: seq<Node>)
    requires Circle(c) && c[0] == head && node !in c
    modifies head`prev, head.prev`next, node`next, node`prev
    ensures Circle(c + [node])
  {
    LinkBetween(node, head.prev, head);
  }

  /** Where the nodes of c stand once node i is left out. */
  lemma IndexWithout<T>(c: seq<T>, i: nat, k: nat)
    requires i < |c| && k < |c| - 1
    ensures (c[..i] + c[i + 1..])[k] == c[if k < i then k else k + 1]
  {
  }

  /** The links of a circle in which node i is bypassed. */
  ghost predicate LinksBypass(c: seq<Node>, i: nat)
    requires 0 < i < |c|
    reads c
  {
    && c[i - 1].next == c[After(i, |c|)]
    && c[After(i, |c|)].prev == c[i - 1]
    && (forall k :: 0 <= k < |c| && k != i && k != i - 1 ==> c[k].next == c[After(k, |c|)])
    && (forall k :: 0 <= k < |c| && k != i && k != After(i, |c|) ==> c[k].prev == c[Before(k, |c|)])
  }

  lemma BypassedAt(c: seq<Node>, i: nat, d: seq<Node>, k: nat)
    requires 0 < i < |c| && d == c[..i] + c[i + 1..] && k < |d|
    requires LinksBypass(c, i)
    ensures d[k].next == d[After(k, |d|)] && d[k].prev == d[Before(k, |d|)]
  {
    IndexWithout(c, i, k);
    IndexWithout(c, i, After(k, |d|));
    IndexWithout(c, i, Before(k, |d|));
  }

  /** A circle with node i bypassed is the circle without it. */
  lemma Bypassed(c: seq<Node>, i: nat, d: seq<Node>)
    requires 0 < i < |c| && d == c[..i] + c[i + 1..]
    requires forall k, l :: 0 <= k < l < |c| ==> c[k] != c[l]
    requires LinksBypass(c, i)
    ensures Circle(d)
  {
    forall k | 0 <= k < |d| ensures d[k].next == d[After(k, |d|)] && d[k].prev == d[Before(k, |d|)] {
      BypassedAt(c, i, d, k);
    }
    forall k, l | 0 <= k < l < |d| ensures d[k] != d[l] {
      IndexWithout(c, i, k);
      IndexWithout(c, i, l);
    }
  }

  /** __aw_mem_list_del */
  method Join(prev: Node, next: Node)
    modifies next`prev, prev`next
    ensures next.prev == prev && prev.next == next
  {
    next.prev := prev;
    prev.next := next;
  }

  /** aw_mem_list_del: the node's neighbours are joined and its own links are poisoned. */
  method Del(entry: Node, ghost c: seq<Node>, ghost i: nat)
    requires Circle(c) && 0 < i < |c| && c[i] == entry
    modifies entry.next`prev, entry.prev`next, entry`next, entry`prev
    ensures Circle(c[..i] + c[i + 1..])
    ensures entry.next == null && entry.prev == null
  {
    assert entry.next == c[After(i, |c|)] && entry.prev == c[i - 1];
    Join(entry.prev, entry.next);
    entry.next := null;
    entry.prev := null;
    Bypassed(c, i, c[..i] + c[i + 1..]);
  }

  /** free: only a node that has not been freed before. */
  method Free(n: Node)
    requires !n.freed
    modifies n`freed
    ensures n.freed
  {
    n.freed := true;
  }

  lemma OthersStay(c: seq<Node>, j: nat)
    requires j < |c| && forall k, l :: 0 <= k < l < |c| ==> c[k] != c[l]
    ensures forall n :: n in c[..j] + c[j + 1..] ==> n in c && n != c[j]
  {
    var d := c[..j] + c[j + 1..];
    forall n | n in d ensures n in c && n != c[j] {
      var k :| 0 <= k < |d| && d[k] == n;
      IndexWithout(c, j, k);
    }
  }

  /** The pair the callers use: the node is out of the circle before it is freed. */
  method DelAndFree(entry: Node, ghost c: seq<Node>, ghost i: nat)
    requires Circle(c) && 0 < i < |c| && c[i] == entry && !entry.freed
    modifies entry.next`prev, entry.prev`next, entry`next, entry`prev, entry`freed
    ensures Circle(c[..i] + c[i + 1..]) && entry.freed
  {
    OthersStay(c, i);
    Del(entry, c, i);
    Free(entry);
  }
}
