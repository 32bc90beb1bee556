// The buffer list of ion_alloc.c seen as a sequence: what allocation and release do to it,
// and the two address translations over it, in 32-bit unsigned long arithmetic.
module IonTranslation {
  import opened IonList

  const ULONG: nat := 0x1_0000_0000

  /** The index of the first buffer that satisfies p, |bufs| when there is none. */
  function First(bufs: seq<Buffer>, p: Buffer -> bool): nat {
    if bufs == [] then 0 else if p(bufs[0]) then 0 else 1 + First(bufs[1..], p)
  }

  lemma {:induction false} FirstIsFirst(bufs: seq<Buffer>, p: Buffer -> bool)
    ensures First(bufs, p) <= |bufs|
    ensures First(bufs, p) < |bufs| ==> p(bufs[First(bufs, p)])
    ensures forall i :: 0 <= i < First(bufs, p) ==> !p(bufs[i])
  {
    if bufs != [] && !p(bufs[0]) {
      FirstIsFirst(bufs[1..], p);
      forall i | 0 <= i < First(bufs, p) ensures !p(bufs[i]) {
        if i > 0 { assert bufs[i] == bufs[1..][i - 1]; }
      }
    }
  }

  lemma {:induction false} FirstIs(bufs: seq<Buffer>, p: Buffer -> bool, n: nat)
    requires n <= |bufs| && (n < |bufs| ==> p(bufs[n]))
    requires forall i :: 0 <= i < n ==> !p(bufs[i])
    ensures First(bufs, p) == n
  {
    FirstIsFirst(bufs, p);
  }

  /** addr >= vir && addr < vir + size, the sum wrapping. */
  function CoversVir(a: nat): Buffer -> bool {
    (b: Buffer) => b.vir <= a < (b.vir + b.size) % ULONG
  }

  function CoversPhy(a: nat): Buffer -> bool {
    (b: Buffer) => b.phy <= a < (b.phy + b.size) % ULONG
  }

  function Vir2Phy(bufs: seq<Buffer>, a: nat): nat {
    var i := First(bufs, CoversVir(a));
    if a == 0 || i >= |bufs| then 0 else (bufs[i].phy + a - bufs[i].vir) % ULONG
  }

  function Phy2Vir(bufs: seq<Buffer>, a: nat): nat {
    var i := First(bufs, CoversPhy(a));
    if a == 0 || i >= |bufs| then 0 else (bufs[i].vir + a - bufs[i].phy) % ULONG
  }

  function HasFd(fd: int): Buffer -> bool {
    (b: Buffer) => b.fd == fd
  }

  /** The descriptor of the buffer that holds the byte, 0 for none. */
  function BufferFd(bufs: seq<Buffer>, a: nat): int {
    var i := First(bufs, CoversVir(a));
    if a == 0 || i >= |bufs| then 0 else bufs[i].fd
  }

  /** The address of the first buffer that is shared through the descriptor, 0 for none. */
  function VirByFd(bufs: seq<Buffer>, fd: int): nat {
    var i := First(bufs, HasFd(fd));
    if i >= |bufs| then 0 else bufs[i].vir
  }

  /** Nonzero ranges that end below the top of the address space. */
  ghost predicate Placed(b: Buffer) {
    b.size > 0 && b.vir > 0 && b.phy > 0 && b.vir + b.size < ULONG && b.phy + b.size < ULONG
  }

  ghost predicate Apart(b: Buffer, c: Buffer) {
    && (b.vir + b.size <= c.vir || c.vir + c.size <= b.vir)
    && (b.phy + b.size <= c.phy || c.phy + c.size <= b.phy)
  }

  ghost predicate WellPlaced(bufs: seq<Buffer>) {
    && (forall i :: 0 <= i < |bufs| ==> Placed(bufs[i]))
    && (forall i, j :: 0 <= i < j < |bufs| ==> Apart(bufs[i], bufs[j]))
  }

  /** The translations undo each other on every byte of every live buffer. */
  lemma TranslationsAreInverse(bufs: seq<Buffer>, i: nat, o: nat)
    requires WellPlaced(bufs) && i < |bufs| && o < bufs[i].size
    ensures Vir2Phy(bufs, bufs[i].vir + o) == bufs[i].phy + o
    ensures Phy2Vir(bufs, bufs[i].phy + o) == bufs[i].vir + o
  {
    assert Placed(bufs[i]);
    forall j | 0 <= j < i
      ensures !CoversVir(bufs[i].vir + o)(bufs[j]) && !CoversPhy(bufs[i].phy + o)(bufs[j])
    {
      assert Placed(bufs[j]) && Apart(bufs[j], bufs[i]);
    }
    FirstIs(bufs, CoversVir(bufs[i].vir + o), i);
    FirstIs(bufs, CoversPhy(bufs[i].phy + o), i);
  }

  ghost predicate InVir(b: Buffer, a: nat) { b.vir <= a < b.vir + b.size }

  ghost predicate InPhy(b: Buffer, a: nat) { b.phy <= a < b.phy + b.size }

  lemma InsideIsTranslated(bufs: seq<Buffer>, i: nat, o: nat)
    requires WellPlaced(bufs) && i < |bufs| && o < bufs[i].size
    ensures Vir2Phy(bufs, bufs[i].vir + o) > 0 && Phy2Vir(bufs, bufs[i].phy + o) > 0
  {
    assert Placed(bufs[i]);
    TranslationsAreInverse(bufs, i, o);
  }

  /** vir2phy gives 0 exactly outside the live buffers. */
  lemma Vir2PhyZeroOutside(bufs: seq<Buffer>, a: nat)
    requires WellPlaced(bufs)
    ensures Vir2Phy(bufs, a) != 0 <==> exists i :: 0 <= i < |bufs| && InVir(bufs[i], a)
  {
    if i :| 0 <= i < |bufs| && InVir(bufs[i], a) { InsideIsTranslated(bufs, i, a - bufs[i].vir); }
    if Vir2Phy(bufs, a) != 0 { CoveringVir(bufs, a); }
  }

  lemma CoveringVir(bufs: seq<Buffer>, a: nat)
    requires WellPlaced(bufs) && First(bufs, CoversVir(a)) < |bufs|
    ensures InVir(bufs[First(bufs, CoversVir(a))], a)
  {
    FirstIsFirst(bufs, CoversVir(a));
    assert Placed(bufs[First(bufs, CoversVir(a))]);
  }

  /** phy2vir gives 0 exactly outside the live buffers. */
  lemma Phy2VirZeroOutside(bufs: seq<Buffer>, a: nat)
    requires WellPlaced(bufs)
    ensures Phy2Vir(bufs, a) != 0 <==> exists i :: 0 <= i < |bufs| && InPhy(bufs[i], a)
  {
    if i :| 0 <= i < |bufs| && InPhy(bufs[i], a) { InsideIsTranslated(bufs, i, a - bufs[i].phy); }
    if Phy2Vir(bufs, a) != 0 { CoveringPhy(bufs, a); }
  }

  lemma CoveringPhy(bufs: seq<Buffer>, a: nat)
    requires WellPlaced(bufs) && First(bufs, CoversPhy(a)) < |bufs|
    ensures InPhy(bufs[First(bufs, CoversPhy(a))], a)
  {
    FirstIsFirst(bufs, CoversPhy(a));
    assert Placed(bufs[First(bufs, CoversPhy(a))]);
  }

  /** phy2vir finds byte o of buffer i, if it has one, the byte's address wrapping. */
  ghost predicate FoundFromPhy(bufs: seq<Buffer>, i: nat, o: nat)
    requires i < |bufs|
  {
    o < bufs[i].size ==> Phy2Vir(bufs, (bufs[i].phy + o) % ULONG) == bufs[i].vir + o
  }

  /** What the virtual side and the pointer width give for every live buffer. */
  ghost predicate Mapped(b: Buffer) {
    b.size > 0 && b.vir > 0 && b.vir + b.size < ULONG && b.phy < ULONG
  }

  ghost predicate PhysicallyPlaced(b: Buffer) {
    b.phy > 0 && b.phy + b.size < ULONG
  }

  lemma NotCovering(b: Buffer, a: nat)
    requires Mapped(b) && a < ULONG
    requires b.phy + b.size <= a || a < b.phy || (a == b.phy && b.phy + b.size >= ULONG)
    ensures !CoversPhy(a)(b)
  {
    var end := b.phy + b.size;
    assert end < ULONG ==> end % ULONG == end;
    assert ULONG <= end < 2 * ULONG ==> end % ULONG == end - ULONG;
  }

  /** Byte 0 of a buffer whose physical range starts at 0 or reaches the top is not found. */
  lemma FirstByteLost(bufs: seq<Buffer>, k: nat)
    requires k < |bufs| && (forall i :: 0 <= i < |bufs| ==> Mapped(bufs[i]))
    requires forall i, j :: 0 <= i < j < |bufs| ==> Apart(bufs[i], bufs[j])
    requires !PhysicallyPlaced(bufs[k])
    ensures !FoundFromPhy(bufs, k, 0)
  {
    var a := bufs[k].phy;
    assert Mapped(bufs[k]);
    forall j | 0 <= j < |bufs| ensures a > 0 ==> !CoversPhy(a)(bufs[j]) {
      assert Mapped(bufs[j]);
      if j < k {
        assert Apart(bufs[j], bufs[k]);
      } else if k < j {
        assert Apart(bufs[k], bufs[j]);
      }
      if a > 0 { NotCovering(bufs[j], a); }
    }
    FirstIsFirst(bufs, CoversPhy(a));
  }

  lemma Unwrapped(a: nat)
    requires a < ULONG
    ensures a % ULONG == a
  {
  }

  lemma ByteFound(bufs: seq<Buffer>, i: nat, o: nat)
    requires WellPlaced(bufs) && i < |bufs|
    ensures FoundFromPhy(bufs, i, o)
  {
    if o < bufs[i].size {
      assert Placed(bufs[i]);
      Unwrapped(bufs[i].phy + o);
      TranslationsAreInverse(bufs, i, o);
    }
  }

  ghost predicate AllMapped(bufs: seq<Buffer>) {
    && (forall i :: 0 <= i < |bufs| ==> Mapped(bufs[i]))
    && (forall i, j :: 0 <= i < j < |bufs| ==> Apart(bufs[i], bufs[j]))
  }

  ghost predicate AllFound(bufs: seq<Buffer>) {
    forall i: nat, o: nat :: i < |bufs| ==> FoundFromPhy(bufs, i, o)
  }

  ghost predicate AllPhysicallyPlaced(bufs: seq<Buffer>) {
    forall i :: 0 <= i < |bufs| ==> PhysicallyPlaced(bufs[i])
  }

  lemma PlacedAreFound(bufs: seq<Buffer>)
    requires AllMapped(bufs) && AllPhysicallyPlaced(bufs)
    ensures AllFound(bufs)
  {
    forall i | 0 <= i < |bufs| ensures Placed(bufs[i]) { assert Mapped(bufs[i]) && PhysicallyPlaced(bufs[i]); }
    forall i: nat, o: nat | i < |bufs| ensures FoundFromPhy(bufs, i, o) { ByteFound(bufs, i, o); }
  }

  lemma FoundArePlaced(bufs: seq<Buffer>)
    requires AllMapped(bufs) && AllFound(bufs)
    ensures AllPhysicallyPlaced(bufs)
  {
    forall k | 0 <= k < |bufs| ensures PhysicallyPlaced(bufs[k]) {
      if !PhysicallyPlaced(bufs[k]) { FirstByteLost(bufs, k); }
    }
  }

  /** Among live buffers with disjoint ranges, all are found again from all their physical bytes exactly when each
      physical range starts above 0 and ends below the top of the address space. */
  lemma PhysicalRangesMustNotWrap(bufs: seq<Buffer>)
    requires AllMapped(bufs)
    ensures AllFound(bufs) <==> AllPhysicallyPlaced(bufs)
  {
    if AllPhysicallyPlaced(bufs) { PlacedAreFound(bufs); }
    if AllFound(bufs) { FoundArePlaced(bufs); }
  }

  // ----- Runs of palloc and pfree -----

  /** How the kernel and malloc answer one allocation. */
  datatype Reply = AllocFails | MapFails | PhysFails | NoNode(phy: nat, vir: nat) | Granted(phy: nat, vir: nat, fd: int)

  datatype Op = Palloc(size: int, reply: Reply) | Pfree(addr: nat)

  function HasVir(a: nat): Buffer -> bool {
    (b: Buffer) => b.vir == a
  }

  /** The list after one call on an open allocator. */
  function Step(bufs: seq<Buffer>, op: Op): seq<Buffer> {
    match op
    case Palloc(size, Granted(phy, vir, fd)) =>
      if size > 0 then bufs + [Buffer(phy, vir, size, fd)] else bufs
    case Palloc(_, _) => bufs
    case Pfree(a) =>
      var i := First(bufs, HasVir(a));
      FirstIsFirst(bufs, HasVir(a));
      if a == 0 || i >= |bufs| then bufs else bufs[..i] + bufs[i + 1..]
  }

  /** The kernel grants ranges that are well placed and apart from every live buffer's. */
  ghost predicate GrantsFresh(bufs: seq<Buffer>, op: Op) {
    op.Palloc? && op.reply.Granted? && op.size > 0 ==>
      var b := Buffer(op.reply.phy, op.reply.vir, op.size, op.reply.fd);
      Placed(b) && forall i :: 0 <= i < |bufs| ==> Apart(bufs[i], b)
  }

  ghost function RunFrom(bufs: seq<Buffer>, ops: seq<Op>): seq<Buffer> {
    if ops == [] then bufs else Step(RunFrom(bufs, ops[..|ops| - 1]), ops[|ops| - 1])
  }

  ghost predicate FreshThroughout(bufs: seq<Buffer>, ops: seq<Op>) {
    forall n :: 0 <= n < |ops| ==> GrantsFresh(RunFrom(bufs, ops[..n]), ops[n])
  }

  lemma OneMorePlaced(bufs: seq<Buffer>, b: Buffer)
    requires WellPlaced(bufs) && Placed(b) && forall i :: 0 <= i < |bufs| ==> Apart(bufs[i], b)
    ensures WellPlaced(bufs + [b])
  {
  }

  lemma OneLessPlaced(bufs: seq<Buffer>, i: nat)
    requires WellPlaced(bufs) && i < |bufs|
    ensures WellPlaced(bufs[..i] + bufs[i + 1..])
  {
    var after := bufs[..i] + bufs[i + 1..];
    assert forall k :: 0 <= k < |after| ==> after[k] == bufs[if k < i then k else k + 1];
  }

  lemma StepKeepsPlaced(bufs: seq<Buffer>, op: Op)
    requires WellPlaced(bufs) && GrantsFresh(bufs, op)
    ensures WellPlaced(Step(bufs, op))
  {
    match op
    case Palloc(size, Granted(phy, vir, fd)) =>
      if size > 0 { OneMorePlaced(bufs, Buffer(phy, vir, size, fd)); }
    case Pfree(a) =>
      var i := First(bufs, HasVir(a));
      if i < |bufs| { OneLessPlaced(bufs, i); }
    case _ =>
  }

  /** Byte o of buffer i, if it has one, is translated there and back. */
  ghost predicate Translates(bufs: seq<Buffer>, i: nat, o: nat)
    requires i < |bufs|
  {
    o < bufs[i].size ==>
      && Vir2Phy(bufs, bufs[i].vir + o) == bufs[i].phy + o
      && Phy2Vir(bufs, bufs[i].phy + o) == bufs[i].vir + o
  }

  /** The inverse translations survive every run of allocations and releases. */
  lemma {:induction false} RunKeepsTranslations(ops: seq<Op>)
    requires FreshThroughout([], ops)
    ensures WellPlaced(RunFrom([], ops))
    ensures forall i: nat, o: nat :: i < |RunFrom([], ops)| ==> Translates(RunFrom([], ops), i, o)
  {
    if ops != [] {
      var front := ops[..|ops| - 1];
      assert forall n :: 0 <= n < |front| ==> front[..n] == ops[..n];
      RunKeepsTranslations(front);
      assert GrantsFresh(RunFrom([], ops[..|ops| - 1]), ops[|ops| - 1]);
      StepKeepsPlaced(RunFrom([], front), ops[|ops| - 1]);
    }
    var bufs := RunFrom([], ops);
    forall i: nat, o: nat | i < |bufs| ensures Translates(bufs, i, o) {
      if o < bufs[i].size { TranslationsAreInverse(bufs, i, o); }
    }
  }
}
