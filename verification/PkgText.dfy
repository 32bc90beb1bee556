// From the text of a Packages file to the output of pkgdetails.c: which line sets which field, and what a stanza that
// is written out is printed as.
module PkgText {
  import opened Wrappers
  import opened PkgDetails
  import opened PkgOwn

  function HeaderOf(kind: Kind, checksumField: string): string {
    match kind
    case Pkg => "Package"
    case Ver => "Version"
    case Arch => "Architecture"
    case Size => "Size"
    case Sum => checksumField
    case File => "Filename"
  }

  /** The same character, or the same ASCII letter in the other case. */
  predicate Alike(a: char, b: char) {
    || a == b
    || ('A' <= a <= 'Z' && b as int == a as int + 32)
    || ('A' <= b <= 'Z' && a as int == b as int + 32)
  }

  lemma LowerIffAlike(a: char, b: char)
    ensures Lower(a) == Lower(b) <==> Alike(a, b)
  {
  }

  /** The line starts with the header, in whatever case, and a colon. */
  ghost predicate Headed(s: string, header: string) {
    |s| > |header| && s[|header|] == ':' && forall i :: 0 <= i < |header| ==> Alike(s[i], header[i])
  }

  ghost predicate IsField(l: Line, kind: Kind) { l.Field? && l.kind == kind }

  /** Each line sets the field it is headed with, and no line any other. */
  ghost predicate ByHeader(checksumField: string) {
    forall s, kind: Kind :: IsField(Classify(s, checksumField), kind) <==> Headed(s, HeaderOf(kind, checksumField))
  }

  /** No line that is headed with the checksum's name is headed with another field's. */
  ghost predicate GoodChecksum(checksumField: string) {
    forall kind: Kind :: kind != Sum ==> !Headed(checksumField + ":", HeaderOf(kind, checksumField))
  }

  lemma PrefixIsHeader(s: string, header: string, prefix: string)
    requires prefix == header + ":"
    ensures HasPrefix(s, prefix) <==> Headed(s, header)
  {
    assert prefix[|header|] == ':' && forall i :: 0 <= i < |header| ==> prefix[i] == header[i];
    forall i | 0 <= i < |prefix| && i < |s| ensures Lower(s[i]) == Lower(prefix[i]) <==> Alike(s[i], prefix[i]) {
      LowerIffAlike(s[i], prefix[i]);
    }
    if HasPrefix(s, prefix) {
      assert Lower(s[|header|]) == Lower(prefix[|header|]);
      assert forall i :: 0 <= i < |header| ==> Lower(s[i]) == Lower(prefix[i]);
    }
    if Headed(s, header) { assert Alike(s[|header|], prefix[|header|]); }
  }

  /** The checksum field is compared without its colon, which is looked for behind it. */
  lemma ChecksumHeader(s: string, header: string)
    ensures HasPrefix(s, header) && |s| > |header| && s[|header|] == ':' <==> Headed(s, header)
  {
    forall i | 0 <= i < |header| && i < |s| ensures Lower(s[i]) == Lower(header[i]) <==> Alike(s[i], header[i]) {
      LowerIffAlike(s[i], header[i]);
    }
  }

  lemma NoColonInHeader(s: string, h: string, i: nat)
    requires Headed(s, h) && ':' !in h && i < |h|
    ensures s[i] != ':'
  {
    assert Alike(s[i], h[i]) && h[i] in h;
  }

  lemma AlikeBoth(a: char, b: char, c: char)
    requires Alike(a, b) && Alike(a, c)
    ensures Alike(b, c)
  {
    LowerIffAlike(a, b);
    LowerIffAlike(a, c);
    LowerIffAlike(b, c);
  }

  /** A line with two headers shows that the longer one starts with the shorter. */
  lemma TwoHeaders(s: string, h: string, h': string)
    requires Headed(s, h) && Headed(s, h') && ':' !in h
    ensures Headed(h' + ":", h)
  {
    if |h'| < |h| { NoColonInHeader(s, h, |h'|); }
    forall i | 0 <= i < |h| ensures Alike((h' + ":")[i], h[i]) {
      assert Alike(s[i], h[i]);
      if i < |h'| {
        assert Alike(s[i], h'[i]);
        AlikeBoth(s[i], h'[i], h[i]);
      }
    }
    assert |h| < |h'| ==> Alike(s[|h|], h'[|h|]);
  }

  /** What a line is, in the order of the tests. */
  lemma ClassifyIs(s: string, c: string)
    ensures Classify(s, c).Field? ==> Classify(s, c).text == FieldText(s)
    ensures var k := Classify(s, c);
            if Headed(s, "Package") then IsField(k, Pkg)
            else if Headed(s, "Version") then IsField(k, Ver)
            else if Headed(s, "Architecture") then IsField(k, Arch)
            else if Headed(s, "Size") then IsField(k, Size)
            else if Headed(s, c) then IsField(k, Sum)
            else if Headed(s, "Filename") then IsField(k, File)
            else !k.Field? && (k.Blank? <==> s == "")
  {
    PrefixIsHeader(s, "Package", "Package:");
    PrefixIsHeader(s, "Version", "Version:");
    PrefixIsHeader(s, "Architecture", "Architecture:");
    PrefixIsHeader(s, "Size", "Size:");
    PrefixIsHeader(s, "Filename", "Filename:");
    ChecksumHeader(s, c);
  }

  lemma HeadersDiffer(s: string, k: Kind, k': Kind, c: string)
    requires k != k' && k != Sum && k' != Sum && Headed(s, HeaderOf(k, c))
    ensures !Headed(s, HeaderOf(k', c))
  {
    var h, h' := HeaderOf(k, c), HeaderOf(k', c);
    assert Alike(s[0], h[0]) && (Headed(s, h') ==> Alike(s[0], h'[0]));
  }

  lemma HeaderHasNoColon(k: Kind, c: string)
    requires k != Sum
    ensures ':' !in HeaderOf(k, c)
  {
  }

  lemma LineIsByHeader(s: string, kind: Kind, c: string)
    requires GoodChecksum(c)
    ensures IsField(Classify(s, c), kind) <==> Headed(s, HeaderOf(kind, c))
  {
    ClassifyIs(s, c);
    forall k: Kind | k != Sum && Headed(s, HeaderOf(k, c)) ensures !Headed(s, c) {
      HeaderHasNoColon(k, c);
      if Headed(s, c) { TwoHeaders(s, HeaderOf(k, c), c); }
    }
    forall k: Kind, k': Kind | k != k' && k != Sum && k' != Sum && Headed(s, HeaderOf(k, c))
      ensures !Headed(s, HeaderOf(k', c))
    {
      HeadersDiffer(s, k, k', c);
    }
    assert HeaderOf(Pkg, c) == "Package" && HeaderOf(Ver, c) == "Version" && HeaderOf(Arch, c) == "Architecture";
    assert HeaderOf(Size, c) == "Size" && HeaderOf(Sum, c) == c && HeaderOf(File, c) == "Filename";
  }

  /** The lines are told apart by their headers exactly when the name of the checksum field, which the environment sets,
      does not collide with another field's. */
  lemma ByHeaderIff(checksumField: string)
    ensures ByHeader(checksumField) <==> GoodChecksum(checksumField)
  {
    var s := checksumField + ":";
    if GoodChecksum(checksumField) {
      forall s, kind: Kind
        ensures IsField(Classify(s, checksumField), kind) <==> Headed(s, HeaderOf(kind, checksumField))
      {
        LineIsByHeader(s, kind, checksumField);
      }
    } else {
      var kind: Kind :| kind != Sum && Headed(s, HeaderOf(kind, checksumField));
      assert Headed(s, HeaderOf(Sum, checksumField));
      assert IsField(Classify(s, checksumField), Sum) ==> !IsField(Classify(s, checksumField), kind);
    }
  }

  // ----- The text of a field -----

  predicate StartsText(v: string) { v == "" || !IsSpace(v[0]) }

  lemma {:induction false} DropsGap(gap: string, v: string)
    requires StartsText(v) && forall i :: 0 <= i < |gap| ==> IsSpace(gap[i])
    ensures DropSpaces(gap + v) == v
  {
    if gap == "" {
      assert gap + v == v;
    } else {
      assert (gap + v)[1..] == gap[1..] + v;
      DropsGap(gap[1..], v);
    }
  }

  lemma {:induction false} TextBehindColon(h: string, gap: string, v: string)
    requires ':' !in h && StartsText(v) && forall i :: 0 <= i < |gap| ==> IsSpace(gap[i])
    ensures FieldText(h + (":" + (gap + v))) == v
  {
    var s := h + (":" + (gap + v));
    if h == "" {
      assert s[1..] == gap + v;
      DropsGap(gap, v);
    } else {
      assert s[0] == h[0] && h[0] in h && s[1..] == h[1..] + (":" + (gap + v));
      TextBehindColon(h[1..], gap, v);
    }
  }

  /** A header, a colon, a space and the text. */
  function FieldLine(kind: Kind, v: string, checksumField: string): string {
    HeaderOf(kind, checksumField) + (":" + (" " + v))
  }

  /** A name for the checksum field without a colon that is no other field's name. */
  ghost predicate ChecksumName(c: string) { ':' !in c && GoodChecksum(c) }

  /** The name used when the environment sets none. */
  lemma DefaultName()
    ensures ChecksumName("MD5sum")
  {
    forall kind: Kind | kind != Sum ensures !Headed("MD5sum" + ":", HeaderOf(kind, "MD5sum")) {
      assert !Alike("MD5sum:"[0], HeaderOf(kind, "MD5sum")[0]);
    }
  }

  lemma FieldLineSets(kind: Kind, v: string, c: string)
    requires ChecksumName(c) && StartsText(v)
    ensures Classify(FieldLine(kind, v, c), c) == Field(kind, v)
  {
    var s, h := FieldLine(kind, v, c), HeaderOf(kind, c);
    assert s[|h|] == ':' && forall i :: 0 <= i < |h| ==> s[i] == h[i];
    LineIsByHeader(s, kind, c);
    ClassifyIs(s, c);
    if kind != Sum { HeaderHasNoColon(kind, c); }
    TextBehindColon(h, " ", v);
  }

  // ----- A stanza written out -----

  /** Fields whose texts do not start with a space, which would be skipped. */
  ghost predicate Printable(st: seq<Line>) {
    forall i :: 0 <= i < |st| ==> st[i].Field? && StartsText(st[i].text)
  }

  function Written(l: Line, c: string): string {
    match l
    case Field(kind, text) => FieldLine(kind, text, c)
    case _ => ""
  }

  function StanzaText(st: seq<Line>, c: string): seq<string> {
    seq(|st|, i requires 0 <= i < |st| => Written(st[i], c))
  }

  /** Reading back the text of a stanza gives the stanza. */
  lemma StanzaIsRead(st: seq<Line>, c: string)
    requires ChecksumName(c) && Printable(st)
    ensures Lines(StanzaText(st, c), c) == st
  {
    forall i | 0 <= i < |st| ensures Lines(StanzaText(st, c), c)[i] == st[i] {
      FieldLineSets(st[i].kind, st[i].text, c);
    }
  }

  /** The text before the stanza ends with a blank line and does not name its package. */
  ghost predicate StandsBefore(before: seq<string>, n: string, c: string) {
    && (before == [] || before[|before| - 1] == "")
    && forall l :: l in Lines(before, c) ==> l != Field(Pkg, n)
  }

  lemma LinesOfText(before: seq<string>, text: seq<string>, c: string)
    ensures Lines(before + text + [""], c) == Lines(before, c) + Lines(text, c) + [Blank]
    ensures before != [] && before[|before| - 1] == "" ==> Lines(before, c)[|before| - 1] == Blank
  {
    ClassifyIs("", c);
  }

  /** The text of a field in a stanza; the last one when there are several. */
  function TextOf(st: seq<Line>, kind: Kind): string {
    OwnField(st, |st|, kind).GetOr("")
  }

  /** A stanza written out with all its fields, in any order, behind any text that does not name its package: asked for
      that package, the program prints exactly those fields and the mirror. */
  lemma TextToDetails(st: seq<Line>, n: string, before: seq<string>, c: string, mirror: string, size0: string,
                      checksum0: string)
    requires ChecksumName(c) && Printable(st) && IsStanzaOf(st, n) && Complete(st) && StandsBefore(before, n, c)
    ensures var f := Source(Lines(before + StanzaText(st, c) + [""], c), mirror, size0, checksum0);
            PassAll(f, [n]) == [Details(n, TextOf(st, Ver), TextOf(st, Arch), mirror, TextOf(st, File),
                                        TextOf(st, Sum), TextOf(st, Size))]
  {
    var f := Source(Lines(before + StanzaText(st, c) + [""], c), mirror, size0, checksum0);
    StanzaIsRead(st, c);
    LinesOfText(before, StanzaText(st, c), c);
    OwnFieldsPrinted(f, Lines(before, c), st, n);
  }

  lemma OwnFieldsPrinted(f: Source, before: seq<Line>, st: seq<Line>, n: string)
    requires IsStanzaOf(st, n) && Complete(st) && EndsWith(f, before, st, n)
    ensures PassAll(f, [n]) == [Details(n, TextOf(st, Ver), TextOf(st, Arch), f.mirror, TextOf(st, File),
                                        TextOf(st, Sum), TextOf(st, Size))]
  {
    CompletePrintsOwn(f, before, st, n);
    forall kind: Kind ensures OwnField(f.lines, |before| + |st|, kind) == OwnField(st, |st|, kind) {
      StanzaEnds(f, before, st, n, kind);
    }
  }
}
