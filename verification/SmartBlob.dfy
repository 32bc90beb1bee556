// Model of sk_disk_get_blob and sk_disk_set_blob in atasmart.strpool.c: the tag-length-value
// blob a disk's SMART state is saved to and restored from.
module SmartBlob {
  import opened Wrappers
  import opened Bytes

  type Table = s: seq<byte> | |s| == 512 witness seq(512, _ => 0)

  // ----- Entries -----

  datatype Entry = Entry(tag: seq<byte>, body: seq<byte>)

  const IDENTIFY: seq<byte> := [73, 68, 70, 89]      // I D F Y
  const SMART_STATUS: seq<byte> := [83, 77, 83, 84]  // S M S T
  const SMART_DATA: seq<byte> := [83, 77, 68, 84]    // S M D T
  const THRESHOLDS: seq<byte> := [83, 77, 84, 72]    // S M T H

  predicate Known(tag: seq<byte>) {
    tag == IDENTIFY || tag == SMART_STATUS || tag == SMART_DATA || tag == THRESHOLDS
  }

  function BodySize(tag: seq<byte>): nat {
    if tag == SMART_STATUS then 4 else 512
  }

  /** ntohl of four bytes in memory order. */
  function Ntohl(b: seq<byte>): nat
    requires |b| == 4
  {
    var b0: int, b1: int, b2: int, b3: int := b[0], b[1], b[2], b[3];
    16777216 * b0 + 65536 * b1 + 256 * b2 + b3
  }

  /** The four bytes of htonl(n) in memory order. */
  function Htonl(n: nat): seq<byte>
    requires n < 0x1_0000_0000
  {
    [n / 16777216, n / 65536 % 256, n / 256 % 256, n % 256]
  }

  lemma NtohlHtonl(n: nat)
    requires n < 0x1_0000_0000
    ensures Ntohl(Htonl(n)) == n
  {
    var x, y := n / 256, n / 256 / 256;
    assert n == 256 * x + n % 256 && n / 65536 == y && x == 256 * y + n / 256 % 256;
    assert y == 256 * (y / 256) + y % 256 && n / 16777216 == y / 256;
  }

  /** The entries of a blob, None when a header or a body is cut short. */
  function Entries(b: seq<byte>): Option<seq<Entry>>
    decreases |b|
  {
    if b == [] then Some([])
    else if |b| < 8 then None
    else
      var n := Ntohl(b[4..8]);
      if |b| - 8 < n then None
      else
        Behind([Entry(b[..4], b[8..8 + n])], Entries(b[8 + n..]))
  }

  function Behind(done: seq<Entry>, rest: Option<seq<Entry>>): Option<seq<Entry>> {
    match rest
    case None => None
    case Some(es) => Some(done + es)
  }

  function Encode(e: Entry): seq<byte>
    requires |e.body| < 0x1_0000_0000
  {
    e.tag + Htonl(|e.body|) + e.body
  }

  predicate Fits(e: Entry) {
    |e.tag| == 4 && |e.body| < 0x1_0000_0000
  }

  ghost predicate Encodable(es: seq<Entry>) {
    forall i :: 0 <= i < |es| ==> Fits(es[i])
  }

  ghost function EncodeAll(es: seq<Entry>): seq<byte>
    requires Encodable(es)
  {
    if es == [] then [] else Encode(es[0]) + EncodeAll(es[1..])
  }

  /** At most one entry, as the writer emits it. */
  ghost function Optional(present: bool, e: Entry): seq<Entry> {
    if present then [e] else []
  }

  /** The bytes of an optional entry. */
  function Part(present: bool, e: Entry): seq<byte>
    requires |e.body| < 0x1_0000_0000
  {
    if present then Encode(e) else []
  }

  lemma EncodeOne(e: Entry)
    requires |e.tag| == 4 && |e.body| < 0x1_0000_0000
    ensures EncodeAll([e]) == Encode(e)
  {
    assert [e][1..] == [];
    assert Encode(e) + [] == Encode(e);
  }

  lemma {:induction false} EncodeConcat(a: seq<Entry>, b: seq<Entry>)
    requires Encodable(a) && Encodable(b)
    ensures Encodable(a + b) && EncodeAll(a + b) == EncodeAll(a) + EncodeAll(b)
    decreases |a|
  {
    if a == [] {
      assert a + b == b;
    } else {
      EncodeConcat(a[1..], b);
      assert (a + b)[1..] == a[1..] + b;
    }
  }

  /** The reader takes an encoded entry off the front of a blob. */
  lemma EntriesStep(e: Entry, rest: seq<byte>, es: seq<Entry>)
    requires Fits(e) && Entries(rest) == Some(es)
    ensures Entries(Encode(e) + rest) == Some([e] + es)
  {
    NtohlHtonl(|e.body|);
    var b := Encode(e) + rest;
    assert b[..4] == e.tag;
    assert b[4..8] == Htonl(|e.body|);
    assert b[8..8 + |e.body|] == e.body;
    assert b[8 + |e.body|..] == rest;
  }

  /** Reading back what was written gives the entries that were written. */
  lemma {:induction false} EntriesOfEncoded(es: seq<Entry>)
    requires Encodable(es)
    ensures Entries(EncodeAll(es)) == Some(es)
    decreases |es|
  {
    if es != [] {
      var e, tail := es[0], es[1..];
      assert [e] + tail == es;
      EntriesOfEncoded(tail);
      EntriesStep(e, EncodeAll(tail), tail);
    }
  }

  /** The body of the last entry with that tag. */
  function Lookup(es: seq<Entry>, tag: seq<byte>): Option<seq<byte>> {
    if es == [] then None
    else if es[|es| - 1].tag == tag then Some(es[|es| - 1].body)
    else Lookup(es[..|es| - 1], tag)
  }

  /** Each known tag at most once, with the size its table has; unknown tags are ignored. */
  ghost predicate Wellformed(es: seq<Entry>) {
    && (forall i :: 0 <= i < |es| && Known(es[i].tag) ==> |es[i].body| == BodySize(es[i].tag))
    && (forall i, j :: 0 <= i < j < |es| && Known(es[i].tag) ==> es[i].tag != es[j].tag)
  }

  lemma {:induction false} LookupNone(es: seq<Entry>, tag: seq<byte>)
    ensures Lookup(es, tag).None? <==> forall i :: 0 <= i < |es| ==> es[i].tag != tag
    ensures Lookup(es, tag).Some? && Wellformed(es) && Known(tag) ==> |Lookup(es, tag).value| == BodySize(tag)
  {
    if es != [] {
      LookupNone(es[..|es| - 1], tag);
    }
  }

  lemma LookupAppend(es: seq<Entry>, e: Entry, tag: seq<byte>)
    ensures Lookup(es + [e], tag) == if e.tag == tag then Some(e.body) else Lookup(es, tag)
  {
    assert (es + [e])[..|es|] == es;
  }

  /** The entries can be read and are in order. */
  ghost predicate Readable(b: seq<byte>) {
    Entries(b).Some? && Wellformed(Entries(b).value)
  }

  /** Blobs that sk_disk_set_blob takes. */
  ghost predicate Acceptable(b: seq<byte>) {
    b != [] && Readable(b) && Lookup(Entries(b).value, IDENTIFY).Some?
  }

  // ----- Reading entry by entry -----

  /** The entries done so far, followed by those of the rest of the blob, are those of the blob. */
  ghost predicate Upto(b: seq<byte>, p: nat, done: seq<Entry>) {
    p <= |b| && Entries(b) == Behind(done, Entries(b[p..]))
  }

  lemma UptoStart(b: seq<byte>)
    ensures Upto(b, 0, [])
  {
    assert b[0..] == b;
    if Entries(b).Some? { assert [] + Entries(b).value == Entries(b).value; }
  }

  lemma EntriesFirst(b: seq<byte>, n: nat)
    requires 8 + n <= |b| && n == Ntohl(b[4..8])
    ensures Entries(b) == Behind([Entry(b[..4], b[8..8 + n])], Entries(b[8 + n..]))
  {
  }

  lemma FirstOfRest(b: seq<byte>, p: nat, n: nat)
    requires p + 8 + n <= |b|
    ensures b[p..][4..8] == b[p + 4..p + 8] && b[p..][..4] == b[p..p + 4]
    ensures b[p..][8..8 + n] == b[p + 8..p + 8 + n] && b[p..][8 + n..] == b[p + 8 + n..]
  {
  }

  /** One more entry. */
  lemma UptoStep(b: seq<byte>, p: nat, done: seq<Entry>, n: nat)
    requires Upto(b, p, done) && p + 8 <= |b| && n == Ntohl(b[p + 4..p + 8]) && p + 8 + n <= |b|
    ensures Upto(b, p + 8 + n, done + [Entry(b[p..p + 4], b[p + 8..p + 8 + n])])
  {
    var rest, e := b[p..], Entry(b[p..p + 4], b[p + 8..p + 8 + n]);
    FirstOfRest(b, p, n);
    EntriesFirst(rest, n);
    if Entries(b[p + 8 + n..]).Some? {
      var es := Entries(b[p + 8 + n..]).value;
      assert done + ([e] + es) == (done + [e]) + es;
    }
  }

  /** A header or body cut short. */
  lemma UptoCut(b: seq<byte>, p: nat, done: seq<Entry>)
    requires Upto(b, p, done) && p < |b|
    requires |b| - p < 8 || |b| - p - 8 < Ntohl(b[p + 4..p + 8])
    ensures !Readable(b)
  {
    if |b| - p >= 8 {
      assert b[p..][4..8] == b[p + 4..p + 8];
    }
  }

  lemma UptoEnd(b: seq<byte>, done: seq<Entry>)
    requires Upto(b, |b|, done)
    ensures Entries(b) == Some(done)
  {
    assert b[|b|..] == [];
    assert done + [] == done;
  }

  lemma WellformedPrefix(a: seq<Entry>, b: seq<Entry>)
    requires Wellformed(a + b)
    ensures Wellformed(a)
  {
    assert forall i :: 0 <= i < |a| ==> (a + b)[i] == a[i];
  }

  lemma UptoWellformed(b: seq<byte>, p: nat, done: seq<Entry>)
    requires Upto(b, p, done) && Readable(b)
    ensures Wellformed(done)
  {
    WellformedPrefix(done, Entries(b[p..]).value);
  }

  /** One more entry keeps the order exactly when it is unknown, or new and of the right size. */
  lemma WellformedAppend(es: seq<Entry>, e: Entry)
    requires Wellformed(es)
    ensures Wellformed(es + [e]) <==> (Known(e.tag) ==> |e.body| == BodySize(e.tag) && Lookup(es, e.tag).None?)
  {
    LookupNone(es, e.tag);
    assert (es + [e])[|es|] == e;
    assert forall i :: 0 <= i < |es| ==> (es + [e])[i] == es[i];
  }

  // ----- The disk -----

  datatype DiskType = Blob | Device

  /** What the kernel and the drive answer while SMART is being initialised and asked for its status. */
  datatype Replies = Replies(
    enableOk: bool,
    identify: Table,            // contents of the buffer after re-reading IDENTIFY
    identifyOk: bool,
    thresholds: Option<Table>,
    status: Option<bool>
  )

  datatype GetResult =
    | NoData
    | Saved(bytes: seq<byte>)
    | SizeMismatch(size: nat, written: nat)   // the final assertion of sk_disk_get_blob fails

  /** The errno of a refusal; the last one is stored with the wrong sign. */
  datatype SetError = ENODEV | EINVAL | NegativeENODATA

  class Disk {
    const kind: DiskType
    var identify: Table
    var smartData: Table
    var thresholds: Table
    var initialized: bool
    var identifyValid: bool
    var smartDataValid: bool
    var thresholdsValid: bool
    var status: bool
    var statusValid: bool

    /** calloc: everything zero and invalid. */
    constructor (kind: DiskType)
      ensures this.kind == kind && !initialized
      ensures !identifyValid && !smartDataValid && !thresholdsValid && !statusValid
    {
      this.kind := kind;
      identify, smartData, thresholds := seq(512, _ => 0), seq(512, _ => 0), seq(512, _ => 0);
      initialized, identifyValid, smartDataValid, thresholdsValid := false, false, false, false;
      status, statusValid := false, false;
    }

    predicate Available()
      reads this
    {
      identifyValid && identify[164] % 2 == 1
    }

    predicate SmartEnabled()
      reads this
    {
      identifyValid && identify[170] % 2 == 1
    }

    /** The replies under which initialising SMART makes the thresholds valid. */
    ghost predicate Learns(k: Replies)
      reads this
    {
      && !initialized && kind.Device? && Available() && k.thresholds.Some?
      && (SmartEnabled() ||
          (k.enableOk && k.identifyOk && k.identify[164] % 2 == 1 && k.identify[170] % 2 == 1))
    }

    /** Some replies do, unless SMART is initialised already, the disk is a blob, or the drive has no SMART. */
    lemma MayLearn()
      ensures (exists k :: Learns(k)) <==> !initialized && kind.Device? && Available()
    {
      if !initialized && kind.Device? && Available() {
        var ones: Table := seq(512, _ => 1);
        assert Learns(Replies(true, ones, true, Some(ones), None));
      }
    }

    /** What asking for the SMART status may do to the disk. */
    twostate predicate Initialises(k: Replies)
      reads this
    {
      && initialized
      && identify == (if old(!initialized && kind.Device? && Available() && !SmartEnabled()) && k.enableOk
                      then k.identify else old(identify))
      && thresholdsValid == old(thresholdsValid || Learns(k))
      && thresholds == if old(Learns(k)) then k.thresholds.value else old(thresholds)
    }

    /** init_smart */
    method InitSmart(k: Replies) returns (ok: bool)
      modifies `initialized, `identify, `thresholds, `thresholdsValid
      ensures Initialises(k)
      ensures ok <==> old(initialized || !Available() || SmartEnabled())
                      || (kind.Device? && k.enableOk && k.identifyOk && k.identify[170] % 2 == 1)
    {
      if initialized {
        return true;
      }
      initialized := true;
      if !Available() {
        return true;
      }
      if !SmartEnabled() {
        if kind.Blob? || !k.enableOk {
          return false;
        }
        identify := k.identify;
        if !k.identifyOk || k.identify == seq(512, _ => 0) {
          assert k.identifyOk ==> k.identify[170] == 0;
          return false;
        }
        if !SmartEnabled() {
          return false;
        }
      }
      if kind.Device? && Available() && k.thresholds.Some? {
        thresholds := k.thresholds.value;
        thresholdsValid := true;
      }
      return true;
    }

    /** What the disk, as it is, is to answer when asked for its SMART status: None for an error. */
    ghost function StatusAnswer(k: Replies): Option<bool>
      reads this
    {
      if !Available() then None
      else if kind.Blob? then if statusValid && (initialized || SmartEnabled()) then Some(status) else None
      else if initialized || SmartEnabled() then k.status
      else if k.enableOk && k.identifyOk && k.identify[164] % 2 == 1 && k.identify[170] % 2 == 1 then k.status
      else None
    }

    /** sk_disk_smart_status */
    method SmartStatus(k: Replies) returns (good: Option<bool>)
      modifies `initialized, `identify, `thresholds, `thresholdsValid
      ensures Initialises(k)
      ensures TablesSize() == old(TablesSize()) + if old(!thresholdsValid && Learns(k)) then 520 else 0
      ensures good == old(StatusAnswer(k))
    {
      var ok := InitSmart(k);
      if !ok || !Available() {
        return None;
      }
      if kind.Blob? {
        return if statusValid then Some(status) else None;
      }
      return k.status;
    }

    /** The entries that describe the disk, with the status if one could be had. */
    ghost function Contents(good: Option<bool>): seq<Entry>
      reads this
    {
      Optional(identifyValid, Entry(IDENTIFY, identify))
      + Optional(good.Some?, StatusEntry(good))
      + Optional(smartDataValid, Entry(SMART_DATA, smartData))
      + Optional(thresholdsValid, Entry(THRESHOLDS, thresholds))
    }

    function TablesSize(): nat
      reads this
    {
      (if identifyValid then 8 + 512 else 0) + (if smartDataValid then 8 + 512 else 0)
      + (if thresholdsValid then 8 + 512 else 0)
    }

    /** The bytes the writing part of sk_disk_get_blob emits. */
    ghost function Written(have: Option<bool>): seq<byte>
      reads this
    {
      Part(identifyValid, Entry(IDENTIFY, identify)) + Part(have.Some?, StatusEntry(have))
      + Part(smartDataValid, Entry(SMART_DATA, smartData)) + Part(thresholdsValid, Entry(THRESHOLDS, thresholds))
    }

    lemma WrittenIsEncoded(have: Option<bool>)
      ensures Encodable(Contents(have)) && EncodeAll(Contents(have)) == Written(have)
    {
      EncodeFour(identifyValid, Entry(IDENTIFY, identify), have.Some?, StatusEntry(have),
                 smartDataValid, Entry(SMART_DATA, smartData), thresholdsValid, Entry(THRESHOLDS, thresholds));
    }

    /** The writing part of sk_disk_get_blob. */
    method WriteBlob(have: Option<bool>) returns (bytes: seq<byte>)
      ensures bytes == Written(have)
      ensures |bytes| == TablesSize() + if have.Some? then 12 else 0
    {
      bytes := AppendEntry([], identifyValid, Entry(IDENTIFY, identify));
      assert bytes == Part(identifyValid, Entry(IDENTIFY, identify));
      bytes := AppendEntry(bytes, have.Some?, StatusEntry(have));
      bytes := AppendEntry(bytes, smartDataValid, Entry(SMART_DATA, smartData));
      bytes := AppendEntry(bytes, thresholdsValid, Entry(THRESHOLDS, thresholds));
    }

    /** sk_disk_get_blob. The size is computed before the status is asked for. Asking may initialise SMART and
        so make the thresholds valid: exactly then more bytes are written than were counted. */
    method GetBlob(k: Replies) returns (r: GetResult)
      modifies `initialized, `identify, `thresholds, `thresholdsValid
      ensures Initialises(k)
      ensures r.NoData? <==> old(TablesSize() == 0 && StatusAnswer(k).None?)
      ensures r.SizeMismatch? <==> !r.NoData? && old(!thresholdsValid && Learns(k))
      ensures r.SizeMismatch? ==> r.written == r.size + 520
      ensures r.Saved? ==> r.bytes == Written(old(StatusAnswer(k)))
    {
      var size := TablesSize();
      var have := SmartStatus(k);
      if have.Some? {
        size := size + 12;
      }
      if size <= 0 {
        return NoData;
      }
      var bytes := WriteBlob(have);
      if |bytes| != size {
        return SizeMismatch(size, |bytes|);
      }
      return Saved(bytes);
    }

    /** sk_disk_set_blob: an acceptable blob replaces the flags and, where it has them, the tables; any other
        argument is refused and changes nothing. */
    method SetBlob(blob: seq<byte>) returns (r: Option<SetError>)
      modifies this
      ensures r.None? <==> kind.Blob? && Acceptable(blob)
      ensures r.Some? ==>
                r.value == if kind.Device? then ENODEV
                           else if blob == [] || !Readable(blob) then EINVAL else NegativeENODATA
      ensures r.Some? ==> unchanged(this)
      ensures r.None? ==> Restored(Entries(blob).value)
      ensures initialized == old(initialized)
    {
      if kind.Device? {
        return Some(ENODEV);
      }
      if |blob| <= 0 {
        return Some(EINVAL);
      }
      var verdict, flags := Verify(blob);
      if verdict.Some? {
        return verdict;
      }
      identifyValid := flags.idv;
      smartDataValid := flags.sdv;
      thresholdsValid := flags.stv;
      statusValid := flags.bssv;
      Load(blob);
      return None;
    }

    /** Flags as the entries say; tables and status from the entries, or as before. */
    twostate predicate Restored(es: seq<Entry>)
      reads this
    {
      && identifyValid == Lookup(es, IDENTIFY).Some?
      && smartDataValid == Lookup(es, SMART_DATA).Some?
      && thresholdsValid == Lookup(es, THRESHOLDS).Some?
      && statusValid == Lookup(es, SMART_STATUS).Some?
      && Loaded(es)
    }

    twostate predicate Loaded(es: seq<Entry>)
      reads this
    {
      && identify == Lookup(es, IDENTIFY).GetOr(old(identify))
      && smartData == Lookup(es, SMART_DATA).GetOr(old(smartData))
      && thresholds == Lookup(es, THRESHOLDS).GetOr(old(thresholds))
      && status == if Lookup(es, SMART_STATUS).Some? then Truth(Lookup(es, SMART_STATUS).value) else old(status)
    }

    /** The second run: copy the bodies in. The assertions of the original hold because the first run succeeded. */
    method Load(blob: seq<byte>)
      requires Readable(blob)
      modifies `identify, `smartData, `thresholds, `status
      ensures Loaded(Entries(blob).value)
    {
      var p := 0;
      ghost var done: seq<Entry> := [];
      UptoStart(blob);
      while p < |blob|
        invariant Upto(blob, p, done)
        invariant Loaded(done)
        decreases |blob| - p
      {
        var next, q := NextEntry(blob, p, done);
        var e := next.value;
        UptoWellformed(blob, q, done + [e]);
        WellformedLast(done, e);
        LoadEntry(e);
        LookupAppendAll(done, e);
        done := done + [e];
        p := q;
      }
      UptoEnd(blob, done);
    }

    method LoadEntry(e: Entry)
      requires Known(e.tag) ==> |e.body| == BodySize(e.tag)
      modifies `identify, `smartData, `thresholds, `status
      ensures identify == if e.tag == IDENTIFY then e.body else old(identify)
      ensures smartData == if e.tag == SMART_DATA then e.body else old(smartData)
      ensures thresholds == if e.tag == THRESHOLDS then e.body else old(thresholds)
      ensures status == if e.tag == SMART_STATUS then Truth(e.body) else old(status)
    {
      if e.tag == IDENTIFY {
        identify := e.body;
      } else if e.tag == SMART_STATUS {
        status := Truth(e.body);
      } else if e.tag == SMART_DATA {
        smartData := e.body;
      } else if e.tag == THRESHOLDS {
        thresholds := e.body;
      }
    }
  }

  /** !!ok: some byte of the word is nonzero. */
  predicate Truth(b: seq<byte>) {
    exists i :: 0 <= i < |b| && b[i] != 0
  }

  /** The first run over the entries: check lengths, sizes and repetitions. */
  method Verify(blob: seq<byte>) returns (r: Option<SetError>, flags: Flags)
    requires blob != []
    ensures r.None? <==> Acceptable(blob)
    ensures r.Some? ==> r.value == if !Readable(blob) then EINVAL else NegativeENODATA
    ensures r.None? ==> flags == FlagsOf(Entries(blob).value)
  {
    flags := Flags(false, false, false, false);
    var p := 0;
    ghost var done: seq<Entry> := [];
    UptoStart(blob);
    while p < |blob|
      invariant Upto(blob, p, done) && Wellformed(done) && flags == FlagsOf(done)
      decreases |blob| - p
    {
      var next, q := NextEntry(blob, p, done);
      if next.None? {
        return Some(EINVAL), flags;
      }
      var e := next.value;
      WellformedAppend(done, e);
      var ok;
      ok, flags := CheckEntry(e, flags, done);
      if !ok {
        if Readable(blob) { UptoWellformed(blob, q, done + [e]); }
        return Some(EINVAL), flags;
      }
      done := done + [e];
      p := q;
    }
    UptoEnd(blob, done);
    return if flags.idv then None else Some(NegativeENODATA), flags;
  }

  /** Which known tags have been seen. */
  datatype Flags = Flags(idv: bool, sdv: bool, stv: bool, bssv: bool)

  ghost function FlagsOf(es: seq<Entry>): Flags {
    Flags(Lookup(es, IDENTIFY).Some?, Lookup(es, SMART_DATA).Some?, Lookup(es, THRESHOLDS).Some?,
          Lookup(es, SMART_STATUS).Some?)
  }

  /** The switch of the first run. */
  method CheckEntry(e: Entry, f: Flags, ghost done: seq<Entry>) returns (ok: bool, f': Flags)
    requires f == FlagsOf(done)
    ensures ok <==> (Known(e.tag) ==> |e.body| == BodySize(e.tag) && Lookup(done, e.tag).None?)
    ensures ok ==> f' == FlagsOf(done + [e])
  {
    LookupAppendAll(done, e);
    f' := f;
    ok := true;
    if e.tag == IDENTIFY {
      if |e.body| != 512 || f.idv { return false, f; }
      f' := f.(idv := true);
    } else if e.tag == SMART_STATUS {
      if |e.body| != 4 || f.bssv { return false, f; }
      f' := f.(bssv := true);
    } else if e.tag == SMART_DATA {
      if |e.body| != 512 || f.sdv { return false, f; }
      f' := f.(sdv := true);
    } else if e.tag == THRESHOLDS {
      if |e.body| != 512 || f.stv { return false, f; }
      f' := f.(stv := true);
    }
  }

  /** The entry at p and the position after it; None when it is cut short. */
  method NextEntry(blob: seq<byte>, p: nat, ghost done: seq<Entry>) returns (e: Option<Entry>, q: nat)
    requires Upto(blob, p, done) && p < |blob|
    ensures e.None? ==> !Readable(blob)
    ensures e.Some? ==> p < q && Upto(blob, q, done + [e.value])
  {
    var left := |blob| - p;
    if left < 8 {
      UptoCut(blob, p, done);
      return None, p;
    }
    var n := Ntohl(blob[p + 4..p + 8]);
    left := left - 8;
    if left < n {
      UptoCut(blob, p, done);
      return None, p;
    }
    UptoStep(blob, p, done, n);
    return Some(Entry(blob[p..p + 4], blob[p + 8..p + 8 + n])), p + 8 + n;
  }

  lemma WellformedLast(es: seq<Entry>, e: Entry)
    requires Wellformed(es + [e])
    ensures Known(e.tag) ==> |e.body| == BodySize(e.tag)
  {
    assert (es + [e])[|es|] == e;
  }

  lemma LookupAppendAll(es: seq<Entry>, e: Entry)
    ensures forall t :: Lookup(es + [e], t) == if e.tag == t then Some(e.body) else Lookup(es, t)
  {
    forall t ensures Lookup(es + [e], t) == if e.tag == t then Some(e.body) else Lookup(es, t) {
      LookupAppend(es, e, t);
    }
  }
  function StatusEntry(good: Option<bool>): (e: Entry)
    ensures |e.tag| == 4 && |e.body| == 4
  {
    Entry(SMART_STATUS, Htonl(if good == Some(true) then 1 else 0))
  }

  /** Tag, length and body of one entry, if its flag is set. */
  method AppendEntry(bytes: seq<byte>, present: bool, e: Entry) returns (longer: seq<byte>)
    requires |e.body| < 0x1_0000_0000
    ensures longer == bytes + Part(present, e)
    ensures |longer| == |bytes| + if present then |e.tag| + 4 + |e.body| else 0
  {
    longer := bytes;
    if present {
      longer := longer + (e.tag + Htonl(|e.body|));
      longer := longer + e.body;
      assert longer == bytes + Encode(e);
    }
  }

  lemma EncodeOptional(present: bool, e: Entry)
    requires |e.tag| == 4 && |e.body| < 0x1_0000_0000
    ensures Encodable(Optional(present, e))
    ensures EncodeAll(Optional(present, e)) == Part(present, e)
  {
    if present { EncodeOne(e); }
  }

  lemma EncodeFour(p: bool, a: Entry, q: bool, b: Entry, r: bool, c: Entry, s: bool, d: Entry)
    requires Fits(a) && Fits(b) && Fits(c) && Fits(d)
    ensures var es := Optional(p, a) + Optional(q, b) + Optional(r, c) + Optional(s, d);
            Encodable(es) && EncodeAll(es) == Part(p, a) + Part(q, b) + Part(r, c) + Part(s, d)
  {
    EncodeOptional(p, a);
    EncodeOptional(q, b);
    EncodeOptional(r, c);
    EncodeOptional(s, d);
    EncodeConcat(Optional(p, a), Optional(q, b));
    EncodeConcat(Optional(p, a) + Optional(q, b), Optional(r, c));
    EncodeConcat(Optional(p, a) + Optional(q, b) + Optional(r, c), Optional(s, d));
  }

  /** Four optional entries with distinct tags: what can be looked up, and that they are in order. */
  lemma FourEntries(p: bool, a: Entry, q: bool, b: Entry, r: bool, c: Entry, s: bool, d: Entry)
    requires a.tag == IDENTIFY && b.tag == SMART_STATUS && c.tag == SMART_DATA && d.tag == THRESHOLDS
    requires |a.body| == 512 && |b.body| == 4 && |c.body| == 512 && |d.body| == 512
    ensures var es := Optional(p, a) + Optional(q, b) + Optional(r, c) + Optional(s, d);
            && Wellformed(es)
            && Lookup(es, IDENTIFY) == (if p then Some(a.body) else None)
            && Lookup(es, SMART_STATUS) == (if q then Some(b.body) else None)
            && Lookup(es, SMART_DATA) == (if r then Some(c.body) else None)
            && Lookup(es, THRESHOLDS) == (if s then Some(d.body) else None)
  {
    TagsDiffer();
    var e0: seq<Entry> := [];
    var e1 := Optional(p, a);
    var e2 := e1 + Optional(q, b);
    var e3 := e2 + Optional(r, c);
    WithOptional(e0, p, a);
    assert e0 + Optional(p, a) == e1;
    WithOptional(e1, q, b);
    WithOptional(e2, r, c);
    WithOptional(e3, s, d);
  }

  lemma TagsDiffer()
    ensures IDENTIFY != SMART_STATUS && IDENTIFY != SMART_DATA && IDENTIFY != THRESHOLDS
    ensures SMART_STATUS != SMART_DATA && SMART_STATUS != THRESHOLDS && SMART_DATA != THRESHOLDS
  {
    assert SMART_STATUS[2] != SMART_DATA[2];
  }

  lemma WithOptional(es: seq<Entry>, present: bool, e: Entry)
    requires Wellformed(es) && |e.body| == BodySize(e.tag) && Known(e.tag) && Lookup(es, e.tag).None?
    ensures Wellformed(es + Optional(present, e))
    ensures forall t ::
              Lookup(es + Optional(present, e), t) == if present && e.tag == t then Some(e.body) else Lookup(es, t)
  {
    if present {
      WellformedAppend(es, e);
      LookupAppendAll(es, e);
    } else {
      assert es + [] == es;
    }
  }

  /** What a disk with a valid IDENTIFY writes is accepted, and looks up as it was written. */
  lemma WrittenIsAcceptable(d: Disk, good: Option<bool>)
    requires d.identifyValid
    ensures Acceptable(d.Written(good))
    ensures var es := Entries(d.Written(good)).value;
            && Lookup(es, IDENTIFY) == Some(d.identify)
            && Lookup(es, SMART_STATUS) == (if good.Some? then Some(Htonl(if good == Some(true) then 1 else 0))
                                            else None)
            && Lookup(es, SMART_DATA) == (if d.smartDataValid then Some(d.smartData) else None)
            && Lookup(es, THRESHOLDS) == (if d.thresholdsValid then Some(d.thresholds) else None)
  {
    d.WrittenIsEncoded(good);
    EntriesOfEncoded(d.Contents(good));
    FourEntries(d.identifyValid, Entry(IDENTIFY, d.identify), good.Some?, StatusEntry(good),
                d.smartDataValid, Entry(SMART_DATA, d.smartData), d.thresholdsValid, Entry(THRESHOLDS, d.thresholds));
  }

  lemma TruthOfHtonl(good: bool)
    ensures Truth(Htonl(if good then 1 else 0)) == good
  {
    if good { assert Htonl(1)[3] == 1; }
  }

  /** A fresh blob disk takes acceptable bytes and then has what they hold. */
  method RestoreFresh(bytes: seq<byte>) returns (e: Disk)
    requires Acceptable(bytes)
    ensures fresh(e) && e.kind.Blob?
    ensures var es := Entries(bytes).value;
            && e.identifyValid && Lookup(es, IDENTIFY) == Some(e.identify)
            && (e.smartDataValid <==> Lookup(es, SMART_DATA).Some?)
            && (e.smartDataValid ==> e.smartData == Lookup(es, SMART_DATA).value)
            && (e.thresholdsValid <==> Lookup(es, THRESHOLDS).Some?)
            && (e.thresholdsValid ==> e.thresholds == Lookup(es, THRESHOLDS).value)
            && (e.statusValid <==> Lookup(es, SMART_STATUS).Some?)
            && (e.statusValid ==> e.status == Truth(Lookup(es, SMART_STATUS).value))
  {
    e := new Disk(Blob);
    var err := e.SetBlob(bytes);
  }

  /** Saving a disk with a valid IDENTIFY succeeds unless asking for the status makes the thresholds valid. Whenever it
      succeeds, restoring the bytes on a fresh blob disk brings back every table that is valid after the save, all
      validity flags, and the status the disk would have answered. */
  method SaveAndRestore(d: Disk, k: Replies) returns (r: GetResult, e: Disk?)
    requires d.identifyValid
    modifies d
    ensures d.Initialises(k)
    ensures r.Saved? <==> old(d.thresholdsValid || !d.Learns(k))
    ensures e != null <==> r.Saved?
    ensures e != null ==>
              && fresh(e) && e.kind.Blob?
              && e.identifyValid && e.identify == d.identify
              && e.smartDataValid == d.smartDataValid && (e.smartDataValid ==> e.smartData == d.smartData)
              && e.thresholdsValid == d.thresholdsValid && (e.thresholdsValid ==> e.thresholds == d.thresholds)
              && e.statusValid == old(d.StatusAnswer(k)).Some?
                 && (e.statusValid ==> e.status == old(d.StatusAnswer(k)).value)
    ensures d.smartDataValid == old(d.smartDataValid) && d.smartData == old(d.smartData)
    ensures old(d.initialized) || d.kind.Blob? ==>
              r.Saved? && d.identify == old(d.identify) && d.thresholdsValid == old(d.thresholdsValid)
                && d.thresholds == old(d.thresholds)
  {
    ghost var good := d.StatusAnswer(k);
    r := d.GetBlob(k);
    e := null;
    if r.Saved? {
      WrittenIsAcceptable(d, good);
      TruthOfHtonl(good == Some(true));
      e := RestoreFresh(r.bytes);
    }
  }
}
