// What a caller of ion_alloc.c gets from a buffer between the palloc that grants it and the pfree that releases it.
module IonLife {
  import opened IonList
  import opened IonTranslation

  /** The call allocates b. */
  ghost predicate Grants(op: Op, b: Buffer) {
    b.size > 0 && op == Palloc(b.size, Granted(b.phy, b.vir, b.fd))
  }

  /** Byte o of b, if it has one, is answered for with b's descriptor, and translated there and back. */
  ghost predicate ByteServed(bufs: seq<Buffer>, b: Buffer, o: nat) {
    o < b.size ==>
      && BufferFd(bufs, b.vir + o) == b.fd
      && Vir2Phy(bufs, b.vir + o) == b.phy + o && Phy2Vir(bufs, b.phy + o) == b.vir + o
  }

  /** No live buffer at another address has the descriptor. */
  ghost predicate OnlyOneShared(bufs: seq<Buffer>, vir: nat, fd: int) {
    forall i :: 0 <= i < |bufs| && bufs[i].vir != vir ==> bufs[i].fd != fd
  }

  /** All of b is served, and b's descriptor leads back to its address unless another live buffer has it too. */
  ghost predicate Serves(bufs: seq<Buffer>, b: Buffer) {
    && (forall o: nat :: ByteServed(bufs, b, o))
    && (OnlyOneShared(bufs, b.vir, b.fd) ==> VirByFd(bufs, b.fd) == b.vir)
  }

  lemma FdOfByte(bufs: seq<Buffer>, i: nat, o: nat)
    requires WellPlaced(bufs) && i < |bufs| && o < bufs[i].size
    ensures BufferFd(bufs, bufs[i].vir + o) == bufs[i].fd
  {
    assert Placed(bufs[i]);
    forall j | 0 <= j < i ensures !CoversVir(bufs[i].vir + o)(bufs[j]) {
      assert Placed(bufs[j]) && Apart(bufs[j], bufs[i]);
    }
    FirstIs(bufs, CoversVir(bufs[i].vir + o), i);
  }

  lemma LiveByteServed(bufs: seq<Buffer>, i: nat, o: nat)
    requires WellPlaced(bufs) && i < |bufs|
    ensures ByteServed(bufs, bufs[i], o)
  {
    if o < bufs[i].size {
      TranslationsAreInverse(bufs, i, o);
      FdOfByte(bufs, i, o);
    }
  }

  lemma AddressOfFd(bufs: seq<Buffer>, i: nat)
    requires i < |bufs| && OnlyOneShared(bufs, bufs[i].vir, bufs[i].fd)
    ensures VirByFd(bufs, bufs[i].fd) == bufs[i].vir
  {
    FirstIsFirst(bufs, HasFd(bufs[i].fd));
  }

  lemma LiveServes(bufs: seq<Buffer>, b: Buffer)
    requires WellPlaced(bufs) && b in bufs
    ensures Serves(bufs, b)
  {
    var i :| 0 <= i < |bufs| && bufs[i] == b;
    forall o: nat ensures ByteServed(bufs, b, o) { LiveByteServed(bufs, i, o); }
    if OnlyOneShared(bufs, b.vir, b.fd) { AddressOfFd(bufs, i); }
  }

  lemma GrantedIsLive(bufs: seq<Buffer>, op: Op, b: Buffer)
    requires Grants(op, b)
    ensures b in Step(bufs, op)
  {
    assert Step(bufs, op)[|bufs|] == b;
  }

  /** A granted palloc: from now on the queries answer with the grant. */
  lemma PallocServes(bufs: seq<Buffer>, op: Op, b: Buffer)
    requires WellPlaced(bufs) && Grants(op, b) && GrantsFresh(bufs, op)
    ensures Serves(Step(bufs, op), b)
  {
    StepKeepsPlaced(bufs, op);
    GrantedIsLive(bufs, op, b);
    LiveServes(Step(bufs, op), b);
  }

  // ----- What a pfree takes away -----

  /** Live buffers have different addresses. */
  lemma DifferentAddresses(bufs: seq<Buffer>, i: nat, j: nat)
    requires WellPlaced(bufs) && i < j < |bufs|
    ensures bufs[i].vir + bufs[i].size <= bufs[j].vir || bufs[j].vir + bufs[j].size <= bufs[i].vir
    ensures bufs[i].vir != bufs[j].vir
  {
    assert Placed(bufs[i]) && Placed(bufs[j]) && Apart(bufs[i], bufs[j]);
  }

  lemma AllElse(bufs: seq<Buffer>, i: nat, b: Buffer)
    requires WellPlaced(bufs) && i < |bufs|
    ensures b in bufs[..i] + bufs[i + 1..] <==> b in bufs && b.vir != bufs[i].vir
  {
    if b in bufs {
      var j :| 0 <= j < |bufs| && bufs[j] == b;
      if j < i { DifferentAddresses(bufs, j, i); }
      if i < j { DifferentAddresses(bufs, i, j); }
    }
    if b in bufs[..i] {
      var j :| 0 <= j < i && bufs[j] == b;
      DifferentAddresses(bufs, j, i);
    }
    if b in bufs[i + 1..] {
      var j :| i < j < |bufs| && bufs[j] == b;
      DifferentAddresses(bufs, i, j);
    }
  }

  /** A pfree takes away the buffer at its address and no other; 0 is nobody's address. */
  lemma PfreeTakesOne(bufs: seq<Buffer>, a: nat, b: Buffer)
    requires WellPlaced(bufs)
    ensures b in Step(bufs, Pfree(a)) <==> b in bufs && b.vir != a
  {
    var i := First(bufs, HasVir(a));
    FirstIsFirst(bufs, HasVir(a));
    if a != 0 && i < |bufs| {
      AllElse(bufs, i, b);
    } else if b in bufs {
      var j :| 0 <= j < |bufs| && bufs[j] == b;
      assert Placed(bufs[j]);
    }
  }

  ghost predicate ByteSilent(bufs: seq<Buffer>, b: Buffer, o: nat) {
    o < b.size ==> BufferFd(bufs, b.vir + o) == 0 && Vir2Phy(bufs, b.vir + o) == 0
  }

  /** No byte of b's range is answered for. */
  ghost predicate Silent(bufs: seq<Buffer>, b: Buffer) {
    forall o: nat :: ByteSilent(bufs, b, o)
  }

  lemma ApartInList(bufs: seq<Buffer>, b: Buffer, c: Buffer)
    requires WellPlaced(bufs) && b in bufs && c in bufs && b.vir != c.vir
    ensures b.vir + b.size <= c.vir || c.vir + c.size <= b.vir
  {
    var i :| 0 <= i < |bufs| && bufs[i] == b;
    var j :| 0 <= j < |bufs| && bufs[j] == c;
    if i < j { DifferentAddresses(bufs, i, j); } else { DifferentAddresses(bufs, j, i); }
  }

  lemma PfreeSilencesByte(bufs: seq<Buffer>, b: Buffer, o: nat)
    requires WellPlaced(bufs) && b in bufs
    ensures ByteSilent(Step(bufs, Pfree(b.vir)), b, o)
  {
    var after, p := Step(bufs, Pfree(b.vir)), CoversVir(b.vir + o);
    StepKeepsPlaced(bufs, Pfree(b.vir));
    if o < b.size && First(after, p) < |after| {
      var c := after[First(after, p)];
      CoveringVir(after, b.vir + o);
      PfreeTakesOne(bufs, b.vir, c);
      ApartInList(bufs, b, c);
    }
  }

  /** Once it is freed, no byte of its range is answered for. */
  lemma PfreeSilences(bufs: seq<Buffer>, b: Buffer)
    requires WellPlaced(bufs) && b in bufs
    ensures Silent(Step(bufs, Pfree(b.vir)), b)
  {
    forall o: nat ensures ByteSilent(Step(bufs, Pfree(b.vir)), b, o) { PfreeSilencesByte(bufs, b, o); }
  }

  // ----- Over whole runs -----

  lemma PlacedPrefix(ops: seq<Op>, n: nat)
    requires FreshThroughout([], ops) && n <= |ops|
    ensures WellPlaced(RunFrom([], ops[..n]))
  {
    assert forall k :: 0 <= k < n ==> ops[..n][..k] == ops[..k];
    RunKeepsTranslations(ops[..n]);
  }

  lemma OneMoreCall(ops: seq<Op>, n: nat)
    requires n < |ops|
    ensures RunFrom([], ops[..n + 1]) == Step(RunFrom([], ops[..n]), ops[n])
  {
    assert ops[..n + 1][..n] == ops[..n];
  }

  /** A call other than the pfree at its address keeps a live buffer. */
  lemma StepKeeps(bufs: seq<Buffer>, op: Op, b: Buffer)
    requires WellPlaced(bufs) && b in bufs && op != Pfree(b.vir)
    ensures b in Step(bufs, op)
  {
    if op.Pfree? { PfreeTakesOne(bufs, op.addr, b); }
  }

  lemma LiveAtOnce(ops: seq<Op>, k: nat, n: nat, b: Buffer)
    requires k < |ops| && n == k + 1 && Grants(ops[k], b)
    ensures b in RunFrom([], ops[..n])
  {
    OneMoreCall(ops, k);
    GrantedIsLive(RunFrom([], ops[..k]), ops[k], b);
  }

  lemma StaysOneMore(ops: seq<Op>, m: nat, n: nat, b: Buffer)
    requires FreshThroughout([], ops) && m < |ops| && n == m + 1
    requires ops[m] != Pfree(b.vir) && b in RunFrom([], ops[..m])
    ensures b in RunFrom([], ops[..n])
  {
    OneMoreCall(ops, m);
    PlacedPrefix(ops, m);
    StepKeeps(RunFrom([], ops[..m]), ops[m], b);
  }

  lemma {:induction false} StaysLive(ops: seq<Op>, k: nat, n: nat, b: Buffer)
    requires FreshThroughout([], ops) && k < n <= |ops| && Grants(ops[k], b)
    requires forall m :: k < m < n ==> ops[m] != Pfree(b.vir)
    ensures b in RunFrom([], ops[..n])
    decreases n
  {
    var m := n - 1;
    if k == m {
      LiveAtOnce(ops, k, n, b);
    } else {
      StaysLive(ops, k, m, b);
      StaysOneMore(ops, m, n, b);
    }
  }

  /** Over every run with fresh grants, a granted buffer is answered for, byte by byte and by its descriptor, until the
      pfree at its address, whatever is allocated and freed beside it; right after that pfree its range is silent. */
  lemma ServedUntilFreed(ops: seq<Op>, k: nat, n: nat, b: Buffer)
    requires FreshThroughout([], ops) && k < n <= |ops| && Grants(ops[k], b)
    requires forall m :: k < m < n ==> ops[m] != Pfree(b.vir)
    ensures Serves(RunFrom([], ops[..n]), b)
    ensures n < |ops| && ops[n] == Pfree(b.vir) ==> Silent(RunFrom([], ops[..n + 1]), b)
  {
    PlacedPrefix(ops, n);
    StaysLive(ops, k, n, b);
    LiveServes(RunFrom([], ops[..n]), b);
    if n < |ops| && ops[n] == Pfree(b.vir) {
      OneMoreCall(ops, n);
      PfreeSilences(RunFrom([], ops[..n]), b);
    }
  }
}
