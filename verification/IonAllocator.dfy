// Model of ion_alloc.c: the reference-counted global context and the calls on it.
// The kernel's and malloc's answers are parameters; the mutex makes each call atomic.
module IonAllocator {
  import opened IonList
  import opened IonTranslation

  class Context {
    const head: Node
    var refCnt: int
    ghost var circle: seq<Node>

    constructor ()
      ensures fresh(head) && !head.freed && circle == [head] && Circle(circle) && refCnt == 0
    {
      var h := new Node(Buffer(0, 0, 0, 0));
      head := h;
      refCnt := 0;
      circle := [h];
      new;
      InitHead(head);
    }
  }

  class Allocator {
    var ctx: Context?
    ghost var Repr: set<object>

    /** The context's list is a circle of nodes that have not been freed. */
    ghost predicate Linked()
      reads this, Repr
    {
      && this in Repr
      && (ctx != null ==>
            && ctx in Repr
            && (forall n :: n in ctx.circle ==> n in Repr && !n.freed)
            && Circle(ctx.circle) && ctx.circle[0] == ctx.head)
    }

    ghost predicate Valid()
      reads this, Repr
      ensures Valid() ==> this in Repr
    {
      Linked() && (ctx != null ==> ctx.refCnt >= 1)
    }

    /** The live buffers in list order. */
    ghost function Live(): seq<Buffer>
      requires Linked()
      reads this, Repr
    {
      if ctx == null then [] else Payload(ctx.circle)
    }

    static ghost function Payload(c: seq<Node>): seq<Buffer>
      requires |c| > 0
      reads c
    {
      seq(|c| - 1, i requires 0 <= i < |c| - 1 reads c => c[i + 1].buf)
    }

    constructor ()
      ensures Valid() && fresh(Repr) && ctx == null
    {
      ctx := null;
      Repr := {this};
    }

    /** sunxi_ion_alloc_open */
    method Open(mallocOk: bool, deviceOk: bool) returns (r: int)
      requires Valid()
      modifies Repr
      ensures Valid() && fresh(Repr - old(Repr))
      ensures old(ctx) != null ==>
                r == 0 && ctx == old(ctx) && ctx.refCnt == old(ctx.refCnt) + 1 && Live() == old(Live())
      ensures old(ctx) == null ==> (r == 0 <==> mallocOk && deviceOk)
      ensures old(ctx) == null && r == 0 ==> ctx != null && ctx.refCnt == 1 && Live() == []
      ensures r != 0 ==> r == -1 && ctx == null
    {
      if ctx == null {
        if !mallocOk || !deviceOk {
          return -1;
        }
        ctx := new Context();
        Repr := Repr + {ctx, ctx.head};
      }
      ctx.refCnt := ctx.refCnt + 1;
      return 0;
    }

    /** aw_mem_list_for_each_entry, left at the first entry that satisfies p. */
    method FirstEntry(p: Buffer -> bool) returns (tmp: Node, ghost i: nat)
      requires Valid() && ctx != null
      ensures i == First(Live(), p)
      ensures tmp == if i < |Live()| then ctx.circle[i + 1] else ctx.head
      ensures i < |Live()| ==> tmp != ctx.head && tmp.buf == Live()[i] && p(tmp.buf)
    {
      ghost var c := ctx.circle;
      tmp := ctx.head.next;
      i := 0;
      while tmp != ctx.head && !p(tmp.buf)
        invariant 0 <= i <= |c| - 1
        invariant tmp == if i + 1 < |c| then c[i + 1] else ctx.head
        invariant forall k :: 1 <= k <= i ==> !p(c[k].buf)
        decreases |c| - i
      {
        tmp := tmp.next;
        i := i + 1;
      }
      FirstIs(Live(), p, i);
    }

    /** sunxi_ion_alloc_palloc: on success the buffer is appended and its virtual address returned. */
    method Palloc(size: int, reply: Reply) returns (vir: nat)
      requires Valid()
      modifies Repr
      ensures Valid() && fresh(Repr - old(Repr)) && ctx == old(ctx)
      ensures ctx != null ==> ctx.refCnt == old(ctx.refCnt)
      ensures Live() == if ctx == null then [] else Step(old(Live()), IonTranslation.Palloc(size, reply))
      ensures vir == if ctx != null && size > 0 && reply.Granted? then reply.vir else 0
    {
      if ctx == null || size <= 0 || !reply.Granted? {
        return 0;
      }
      var node := new Node(Buffer(reply.phy, reply.vir, size, reply.fd));
      Append(node);
      return reply.vir;
    }

    /** Link a fresh node in as the last live buffer. */
    method Append(node: Node)
      requires Linked() && ctx != null && node !in Repr && !node.freed
      modifies ctx`circle, this`Repr, ctx.head`prev, ctx.head.prev`next, node`next, node`prev
      ensures Linked() && Repr == old(Repr) + {node}
      ensures Live() == old(Live()) + [node.buf]
    {
      ghost var c := ctx.circle;
      AddTail(node, ctx.head, c);
      ctx.circle := c + [node];
      Repr := Repr + {node};
      assert Payload(c) == old(Payload(c));
    }

    /** sunxi_ion_alloc_pfree: the first buffer at that address leaves the list and its node is freed. */
    method Pfree(pbuf: nat)
      requires Valid()
      modifies Repr
      ensures Valid() && Repr == old(Repr) && ctx == old(ctx)
      ensures ctx != null ==> ctx.refCnt == old(ctx.refCnt)
      ensures Live() == if ctx == null then [] else Step(old(Live()), IonTranslation.Pfree(pbuf))
    {
      if pbuf == 0 || ctx == null {
        return;
      }
      ghost var c := ctx.circle;
      ghost var i: nat;
      var tmp;
      tmp, i := FirstEntry(HasVir(pbuf));
      StepOfFree(Live(), pbuf, i);
      if tmp != ctx.head {
        Remove(tmp, i);
      }
    }

    static lemma StepOfFree(bufs: seq<Buffer>, a: nat, i: nat)
      requires a != 0 && i == First(bufs, HasVir(a))
      ensures i >= |bufs| ==> Step(bufs, IonTranslation.Pfree(a)) == bufs
      ensures i < |bufs| ==> Step(bufs, IonTranslation.Pfree(a)) == bufs[..i] + bufs[i + 1..]
    {
    }

    static lemma PayloadWithout(c: seq<Node>, j: nat)
      requires 0 < j < |c|
      ensures Payload(c[..j] + c[j + 1..]) == Payload(c)[..j - 1] + Payload(c)[j..]
    {
      var left, right := Payload(c[..j] + c[j + 1..]), Payload(c)[..j - 1] + Payload(c)[j..];
      forall k | 0 <= k < |left| ensures left[k] == right[k] {
        IndexWithout(c, j, k + 1);
      }
    }

    static twostate lemma PayloadStays(c: seq<Node>)
      requires |c| > 0 && forall k :: 0 <= k < |c| ==> c[k].buf == old(c[k].buf)
      ensures Payload(c) == old(Payload(c))
    {
    }

    /** Unlink and free the node of the i-th live buffer. */
    method Remove(tmp: Node, ghost i: nat)
      requires Linked() && ctx != null && i < |Live()| && ctx.circle[i + 1] == tmp
      modifies ctx`circle, tmp`next, tmp`prev, tmp`freed, tmp.next`prev, tmp.prev`next
      ensures Linked() && tmp.freed
      ensures ctx.circle == old(ctx.circle[..i + 1] + ctx.circle[i + 2..])
      ensures Live() == old(Live())[..i] + old(Live())[i + 1..]
    {
      ghost var c := ctx.circle;
      RemoveNode(tmp, i);
      PayloadWithout(c, i + 1);
      PayloadStays(c);
    }

    method RemoveNode(tmp: Node, ghost i: nat)
      requires Linked() && ctx != null && i + 1 < |ctx.circle| && ctx.circle[i + 1] == tmp
      modifies ctx`circle, tmp`next, tmp`prev, tmp`freed, tmp.next`prev, tmp.prev`next
      ensures Linked() && tmp.freed
      ensures ctx.circle == old(ctx.circle[..i + 1] + ctx.circle[i + 2..])
    {
      ghost var c := ctx.circle;
      OthersStay(c, i + 1);
      DelAndFree(tmp, c, i + 1);
      ctx.circle := c[..i + 1] + c[i + 2..];
    }

    /** sunxi_ion_alloc_close: the last close frees every node once and drops the context. */
    method Close()
      requires Valid() && ctx != null
      modifies Repr
      ensures Valid() && Repr == old(Repr)
      ensures old(ctx.refCnt) > 1 ==> ctx == old(ctx) && ctx.refCnt == old(ctx.refCnt) - 1 && Live() == old(Live())
      ensures old(ctx.refCnt) == 1 ==> ctx == null
      ensures old(ctx.refCnt) == 1 ==> forall j :: 1 <= j < |old(ctx.circle)| ==> old(ctx.circle)[j].freed
    {
      ctx.refCnt := ctx.refCnt - 1;
      if ctx.refCnt <= 0 {
        FreeAll();
        ctx := null;
      }
    }

    /** aw_mem_list_for_each_safe over the list, deleting and freeing each node on the way. */
    method FreeAll()
      requires Linked() && ctx != null
      modifies Repr
      ensures Linked() && ctx == old(ctx) && Repr == old(Repr) && ctx.circle == [ctx.head]
      ensures forall j :: 1 <= j < |old(ctx.circle)| ==> old(ctx.circle)[j].freed
    {
      ghost var all := ctx.circle;
      var pos := ctx.head.next;
      var q := pos.next;
      while pos != ctx.head
        invariant Linked() && ctx == old(ctx) && Repr == old(Repr)
        invariant pos == if |ctx.circle| > 1 then ctx.circle[1] else ctx.head
        invariant q == pos.next
        invariant forall n :: n in all ==> n.freed || n in ctx.circle
        decreases |ctx.circle|
      {
        FreeFirst(pos);
        pos := q;
        q := pos.next;
      }
      assert all[0] == ctx.head;
    }

    static lemma WithoutSecond(c: seq<Node>)
      requires |c| > 1
      ensures c[..1] + c[2..] == [c[0]] + c[2..]
      ensures forall n :: n in c ==> n == c[1] || n in [c[0]] + c[2..]
      ensures |c| > 2 ==> ([c[0]] + c[2..])[1] == c[2]
    {
    }

    /** Remove the first live buffer; the header then points at the second. */
    method FreeFirst(pos: Node)
      requires Linked() && ctx != null && |ctx.circle| > 1 && ctx.circle[1] == pos
      modifies ctx`circle, pos`next, pos`prev, pos`freed, pos.next`prev, pos.prev`next
      ensures Linked() && pos.freed
      ensures ctx.circle == old([ctx.circle[0]] + ctx.circle[2..])
      ensures |ctx.circle| == old(|ctx.circle|) - 1
      ensures forall n :: n in old(ctx.circle) ==> n == pos || n in ctx.circle
      ensures old(pos.next) == if |ctx.circle| > 1 then ctx.circle[1] else ctx.head
    {
      ghost var c := ctx.circle;
      WithoutSecond(c);
      Remove(pos, 0);
    }

    /** sunxi_ion_alloc_vir2phy_cpu */
    method Vir2PhyCpu(pbuf: nat) returns (phy: nat)
      requires Valid() && (pbuf != 0 ==> ctx != null)
      ensures phy == Vir2Phy(Live(), pbuf)
    {
      if pbuf == 0 {
        return 0;
      }
      ghost var i: nat;
      var tmp;
      tmp, i := FirstEntry(CoversVir(pbuf));
      phy := if tmp != ctx.head then (tmp.buf.phy + pbuf - tmp.buf.vir) % ULONG else 0;
    }

    /** sunxi_ion_alloc_phy2vir_cpu */
    method Phy2VirCpu(pbuf: nat) returns (vir: nat)
      requires Valid() && (pbuf != 0 ==> ctx != null)
      ensures vir == Phy2Vir(Live(), pbuf)
    {
      if pbuf == 0 {
        return 0;
      }
      ghost var i: nat;
      var tmp;
      tmp, i := FirstEntry(CoversPhy(pbuf));
      vir := if tmp != ctx.head then (tmp.buf.vir + pbuf - tmp.buf.phy) % ULONG else 0;
    }

    /** sunxi_ion_alloc_get_bufferFd: the descriptor of the buffer that holds the byte, 0 for none. */
    method GetBufferFd(pbuf: nat) returns (fd: int)
      requires Valid() && (pbuf != 0 ==> ctx != null)
      ensures fd == BufferFd(Live(), pbuf)
    {
      if pbuf == 0 {
        return 0;
      }
      ghost var i: nat;
      var tmp;
      tmp, i := FirstEntry(CoversVir(pbuf));
      fd := if tmp != ctx.head then tmp.buf.fd else 0;
    }

    /** sunxi_ion_alloc_get_viraddr_byFd: the address of the first buffer shared through that descriptor. */
    method GetVirAddrByFd(fd: int) returns (vir: nat)
      requires Valid() && ctx != null
      ensures vir == VirByFd(Live(), fd)
    {
      ghost var i: nat;
      var tmp;
      tmp, i := FirstEntry(HasFd(fd));
      vir := if tmp != ctx.head then tmp.buf.vir else 0;
    }
  }
}
