// The bytes of the blob that atasmart.strpool.c saves, and what asking a disk for its status twice does.
module SmartLayout {
  import opened Wrappers
  import opened Bytes
  import opened SmartBlob

  /** At offset o lie the four bytes of a tag, those of a length, and a body. */
  predicate ChunkAt(b: seq<byte>, o: nat, tag: seq<byte>, length: seq<byte>, body: seq<byte>) {
    && |tag| == |length| == 4 && o + 8 + |body| <= |b|
    && b[o..o + 4] == tag && b[o + 4..o + 8] == length && b[o + 8..o + 8 + |body|] == body
  }

  ghost predicate EntryAt(b: seq<byte>, o: nat, e: Entry) {
    |e.body| < 0x1_0000_0000 && ChunkAt(b, o, e.tag, Htonl(|e.body|), e.body)
  }

  lemma LastPart(a: seq<byte>, present: bool, e: Entry)
    requires Fits(e)
    ensures present ==> EntryAt(a + Part(present, e), |a|, e)
    ensures |a + Part(present, e)| == |a| + if present then 8 + |e.body| else 0
  {
    if present {
      var b, o := a + Part(present, e), |a|;
      assert b[o..o + 4] == e.tag && b[o + 4..o + 8] == Htonl(|e.body|) && b[o + 8..o + 8 + |e.body|] == e.body;
    }
  }

  lemma EarlierStays(b: seq<byte>, z: seq<byte>, o: nat, e: Entry)
    requires EntryAt(b, o, e)
    ensures EntryAt(b + z, o, e)
  {
    var c := b + z;
    assert c[o..o + 4] == b[o..o + 4] && c[o + 4..o + 8] == b[o + 4..o + 8];
    assert c[o + 8..o + 8 + |e.body|] == b[o + 8..o + 8 + |e.body|];
  }

  lemma TwoParts(b: seq<byte>, p: bool, e: Entry, q: bool, f: Entry, second: nat)
    requires Fits(e) && Fits(f) && b == Part(p, e) + Part(q, f) && second == if p then 8 + |e.body| else 0
    ensures |b| == second + if q then 8 + |f.body| else 0
    ensures p ==> EntryAt(b, 0, e)
    ensures q ==> EntryAt(b, second, f)
  {
    var a := Part(p, e);
    assert [] + a == a;
    LastPart([], p, e);
    LastPart(a, q, f);
    if p { EarlierStays(a, Part(q, f), 0, e); }
  }

  lemma ThreeParts(b: seq<byte>, p: bool, e: Entry, q: bool, f: Entry, r: bool, g: Entry, second: nat, third: nat)
    requires Fits(e) && Fits(f) && Fits(g) && b == Part(p, e) + Part(q, f) + Part(r, g)
    requires second == (if p then 8 + |e.body| else 0) && third == second + if q then 8 + |f.body| else 0
    ensures |b| == third + if r then 8 + |g.body| else 0
    ensures p ==> EntryAt(b, 0, e)
    ensures q ==> EntryAt(b, second, f)
    ensures r ==> EntryAt(b, third, g)
  {
    var a := Part(p, e) + Part(q, f);
    TwoParts(a, p, e, q, f, second);
    LastPart(a, r, g);
    if p { EarlierStays(a, Part(r, g), 0, e); }
    if q { EarlierStays(a, Part(r, g), second, f); }
  }

  lemma FourParts(b: seq<byte>, p: bool, e: Entry, q: bool, f: Entry, r: bool, g: Entry, s: bool, h: Entry,
                  second: nat, third: nat, fourth: nat)
    requires Fits(e) && Fits(f) && Fits(g) && Fits(h)
    requires b == Part(p, e) + Part(q, f) + Part(r, g) + Part(s, h)
    requires second == (if p then 8 + |e.body| else 0) && third == second + (if q then 8 + |f.body| else 0)
    requires fourth == third + if r then 8 + |g.body| else 0
    ensures |b| == fourth + if s then 8 + |h.body| else 0
    ensures p ==> EntryAt(b, 0, e)
    ensures q ==> EntryAt(b, second, f)
    ensures r ==> EntryAt(b, third, g)
    ensures s ==> EntryAt(b, fourth, h)
  {
    var a := Part(p, e) + Part(q, f) + Part(r, g);
    ThreeParts(a, p, e, q, f, r, g, second, third);
    LastPart(a, s, h);
    if p { EarlierStays(a, Part(s, h), 0, e); }
    if q { EarlierStays(a, Part(s, h), second, f); }
    if r { EarlierStays(a, Part(s, h), third, g); }
  }

  /** A saved disk: the tables that are valid, each behind its tag and its length, in this order at these offsets. */
  lemma SavedBytes(d: Disk, good: Option<bool>, b: seq<byte>, status: nat, data: nat, thresholds: nat)
    requires b == d.Written(good) && status == (if d.identifyValid then 520 else 0)
    requires data == status + (if good.Some? then 12 else 0) && thresholds == data + if d.smartDataValid then 520 else 0
    ensures |b| == thresholds + if d.thresholdsValid then 520 else 0
    ensures d.identifyValid ==> EntryAt(b, 0, Entry(IDENTIFY, d.identify))
    ensures good.Some? ==> EntryAt(b, status, StatusEntry(good))
    ensures d.smartDataValid ==> EntryAt(b, data, Entry(SMART_DATA, d.smartData))
    ensures d.thresholdsValid ==> EntryAt(b, thresholds, Entry(THRESHOLDS, d.thresholds))
  {
    FourParts(b, d.identifyValid, Entry(IDENTIFY, d.identify), good.Some?, StatusEntry(good),
              d.smartDataValid, Entry(SMART_DATA, d.smartData), d.thresholdsValid, Entry(THRESHOLDS, d.thresholds),
              status, data, thresholds);
  }

  /** The tags are the letters IDFY, SMST, SMDT and SMTH; a table's length is written 0 0 2 0, and the status as the
      word 1 or 0, its length as 0 0 0 4. */
  lemma SavedWords(good: bool)
    ensures IDENTIFY == [73, 68, 70, 89] && SMART_STATUS == [83, 77, 83, 84]
    ensures SMART_DATA == [83, 77, 68, 84] && THRESHOLDS == [83, 77, 84, 72]
    ensures Htonl(512) == [0, 0, 2, 0] && Htonl(4) == [0, 0, 0, 4]
    ensures StatusEntry(Some(good)) == Entry(SMART_STATUS, [0, 0, 0, if good then 1 else 0])
  {
  }

  /** The length words are big-endian: the last byte is the low one, and the others count as much as one place on. */
  lemma LengthsAreBigEndian(b: seq<byte>)
    requires |b| == 4
    ensures Ntohl(b) == 256 * Ntohl([0] + b[..3]) + b[3] && Ntohl([0, 0, 0, b[3]]) == b[3]
  {
  }

  /** Asking again, with whatever replies, changes nothing, and an answer once given is given again. */
  twostate lemma AskedAgain(d: Disk, k: Replies, k': Replies)
    requires d.Initialises(k) && d.identifyValid == old(d.identifyValid)
    requires d.status == old(d.status) && d.statusValid == old(d.statusValid) && k'.status == k.status
    ensures !d.Learns(k')
    ensures old(d.StatusAnswer(k)).Some? ==> d.StatusAnswer(k') == old(d.StatusAnswer(k))
  {
  }

  /** On a blob disk the second answer is the first one unless SMART is available but not enabled in the IDENTIFY data
      of a disk not asked before: then the first request fails, and a status that was restored is given from the second
      on. */
  twostate lemma SecondAnswerIff(d: Disk, k: Replies, k': Replies)
    requires d.kind.Blob? && d.Initialises(k) && d.identifyValid == old(d.identifyValid)
    requires d.status == old(d.status) && d.statusValid == old(d.statusValid)
    ensures d.StatusAnswer(k') == old(d.StatusAnswer(k)) <==>
            !old(!d.initialized && d.Available() && !d.SmartEnabled() && d.statusValid)
  {
  }
}
