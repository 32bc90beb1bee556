// Model of the PKGS mode of pkgdetails.c: one pass over a Packages file for up to 100 names at a time.
module PkgDetails {
  import opened Wrappers

  const MAX_PKGS := 100

  // ----- Lines -----

  datatype Kind = Pkg | Ver | Arch | Size | Sum | File

  datatype Line = Field(kind: Kind, text: string) | Blank | Other

  function Lower(c: char): char {
    if 'A' <= c <= 'Z' then c + 32 as char else c
  }

  predicate HasPrefix(s: string, prefix: string) {
    |prefix| <= |s| && forall i :: 0 <= i < |prefix| ==> Lower(s[i]) == Lower(prefix[i])
  }

  predicate IsSpace(c: char) { c == ' ' || '\t' <= c <= '\r' }

  function DropSpaces(s: string): string {
    if s != "" && IsSpace(s[0]) then DropSpaces(s[1..]) else s
  }

  /** What follows the first colon and the spaces behind it. */
  function FieldText(s: string): string {
    if s == "" then "" else if s[0] == ':' then DropSpaces(s[1..]) else FieldText(s[1..])
  }

  function Classify(s: string, checksumField: string): Line {
    if HasPrefix(s, "Package:") then Field(Pkg, FieldText(s))
    else if HasPrefix(s, "Version:") then Field(Ver, FieldText(s))
    else if HasPrefix(s, "Architecture:") then Field(Arch, FieldText(s))
    else if HasPrefix(s, "Size:") then Field(Size, FieldText(s))
    else if HasPrefix(s, checksumField) && |s| > |checksumField| && s[|checksumField|] == ':'
      then Field(Sum, FieldText(s))
    else if HasPrefix(s, "Filename:") then Field(File, FieldText(s))
    else if s == "" then Blank
    else Other
  }

  function Lines(file: seq<string>, checksumField: string): (lines: seq<Line>)
    ensures |lines| == |file|
  {
    seq(|file|, i requires 0 <= i < |file| => Classify(file[i], checksumField))
  }

  // ----- State -----

  /** An output line: details, or "name -". */
  datatype Out =
    | Details(pkg: string, ver: string, arch: string, mirror: string, filename: string, checksum: string, size: string)
    | Missing(name: string)

  /** The current-field buffers. */
  datatype Current = Current(field: string, pkg: string, ver: string, arch: string, size: string, checksum: string,
                             filename: string)

  /** The file, and what is not in it: the mirror and what the two uninitialised buffers hold at first. */
  datatype Source = Source(lines: seq<Line>, mirror: string, size0: string, checksum0: string)

  function Name(slot: Option<string>): seq<string> {
    if slot.Some? then [slot.value] else []
  }

  /** The names still asked for, in order. */
  function Live(pkgs: seq<Option<string>>): seq<string> {
    if pkgs == [] then [] else Name(pkgs[0]) + Live(pkgs[1..])
  }

  /** The local variables of a pass. */
  datatype Scan = Scan(cur: Current, prev: string, pkgs: seq<Option<string>>, output: Option<Out>, slot: int,
                       printed: seq<Out>)

  /** Pending output belongs to a slot. */
  predicate InRange(s: Scan) { s.output.Some? ==> 0 <= s.slot < |s.pkgs| }

  // ----- What a pass does, line by line -----

  predicate NamesPackage(l: Line) { l.Field? && l.kind == Pkg }

  /** The pending line is printed and its slot struck. */
  function Flushed(s: Scan): Scan
    requires InRange(s)
  {
    if s.output.None? then s
    else s.(printed := s.printed + [s.output.value], pkgs := s.pkgs[s.slot := None], output := None, slot := -1)
  }

  /** A package line: pending output is printed unless the same package is named again, which drops it. */
  function AfterPackage(s: Scan, p: string): Scan
    requires InRange(s)
  {
    (if p != s.prev then Flushed(s) else s.(output := None, slot := -1)).(
      cur := s.cur.(field := p, pkg := p), prev := p)
  }

  /** Any other line of a stanza. */
  function WithField(cur: Current, l: Line): Current {
    match l
    case Field(Ver, v) => cur.(ver := v)
    case Field(Arch, v) => cur.(arch := v)
    case Field(Size, v) => cur.(size := v)
    case Field(Sum, v) => cur.(checksum := v)
    case Field(File, v) => cur.(filename := v)
    case _ => cur
  }

  function AfterOther(s: Scan, l: Line): Scan {
    s.(cur := WithField(s.cur, l))
  }

  function DetailsOf(cur: Current, mirror: string): Out {
    Details(cur.pkg, cur.ver, cur.arch, mirror, cur.filename, cur.checksum, cur.size)
  }

  /** A blank line: output becomes pending for the slot found, if any (i is -1 otherwise). */
  function AfterBlank(s: Scan, i: int, mirror: string): Scan {
    (if i == -1 then s else s.(output := Some(DetailsOf(s.cur, mirror)), slot := i)).(cur := s.cur.(field := ""))
  }

  /** i is the first slot still asking for name, -1 if there is none. */
  ghost predicate IsFirstSlot(pkgs: seq<Option<string>>, name: string, i: int) {
    if i == -1 then Some(name) !in pkgs
    else 0 <= i < |pkgs| && pkgs[i] == Some(name) && Some(name) !in pkgs[..i]
  }

  function FirstSlotFrom(pkgs: seq<Option<string>>, name: string, k: nat): (i: int)
    requires k <= |pkgs| && Some(name) !in pkgs[..k]
    ensures IsFirstSlot(pkgs, name, i)
    decreases |pkgs| - k
  {
    if k == |pkgs| then assert pkgs[..k] == pkgs; -1
    else if pkgs[k] == Some(name) then k
    else FirstSlotFrom(pkgs, name, k + 1)
  }

  function FirstSlot(pkgs: seq<Option<string>>, name: string): (i: int)
    ensures IsFirstSlot(pkgs, name, i)
  {
    FirstSlotFrom(pkgs, name, 0)
  }

  function AfterLine(s: Scan, l: Line, mirror: string): (s': Scan)
    requires InRange(s)
    ensures InRange(s')
  {
    if NamesPackage(l) then AfterPackage(s, l.text)
    else if l.Blank? then AfterBlank(s, FirstSlot(s.pkgs, s.cur.field), mirror)
    else AfterOther(s, l)
  }

  /** No slot is left. */
  predicate Exhausted(s: Scan) { forall i :: 0 <= i < |s.pkgs| ==> s.pkgs[i].None? }

  /** The state after the lines from k on; a blank line that finds no slot left ends the pass. */
  function Ran(f: Source, s: Scan, k: nat): (s': Scan)
    requires k <= |f.lines| && InRange(s)
    ensures InRange(s')
    decreases |f.lines| - k
  {
    if k == |f.lines| || (f.lines[k].Blank? && Exhausted(s)) then s
    else Ran(f, AfterLine(s, f.lines[k], f.mirror), k + 1)
  }

  function Start(f: Source, names: seq<string>): Scan {
    Scan(Current("", "", "", "", f.size0, f.checksum0, ""), "",
         seq(|names|, i requires 0 <= i < |names| => Some(names[i])), None, -1, [])
  }

  function MissingLines(names: seq<string>): seq<Out> {
    seq(|names|, i requires 0 <= i < |names| => Missing(names[i]))
  }

  /** What a state prints at the end: the pending line, and "name -" for each slot left. */
  function Ended(s: Scan): seq<Out>
    requires InRange(s)
  {
    Flushed(s).printed + MissingLines(Live(Flushed(s).pkgs))
  }

  /** The output of one pass, as a function of the file and the names. */
  function Pass(f: Source, names: seq<string>): seq<Out> {
    Ended(Ran(f, Start(f, names), 0))
  }

  /** The output of a run: one pass for each hundred arguments, the last for the rest. */
  function PassAll(f: Source, args: seq<string>): seq<Out> {
    if |args| > MAX_PKGS then Pass(f, args[..MAX_PKGS]) + PassAll(f, args[MAX_PKGS..]) else Pass(f, args)
  }

  // ----- The loops -----

  /** The first slot asking for name (-1 if none), and whether any slot is left. */
  method FindSlot(pkgs: seq<Option<string>>, name: string) returns (found: int, any: bool)
    ensures IsFirstSlot(pkgs, name, found)
    ensures any <==> exists i :: 0 <= i < |pkgs| && pkgs[i].Some?
  {
    any := false;
    var i := 0;
    while i < |pkgs|
      invariant 0 <= i <= |pkgs| && Some(name) !in pkgs[..i]
      invariant any <==> exists j :: 0 <= j < i && pkgs[j].Some?
    {
      if pkgs[i].Some? {
        any := true;
        if pkgs[i].value == name {
          return i, true;
        }
      }
      i := i + 1;
    }
    return -1, any;
  }

  lemma FirstSlotIsOne(pkgs: seq<Option<string>>, name: string, i: int, j: int)
    requires IsFirstSlot(pkgs, name, i) && IsFirstSlot(pkgs, name, j)
    ensures i == j
  {
    assert 0 <= i ==> pkgs[i] in pkgs;
    assert 0 <= j ==> pkgs[j] in pkgs;
  }

  /** One line of the file; done when a blank line finds no slot left. */
  method OnLine(f: Source, l: Line, s: Scan) returns (s': Scan, done: bool)
    requires InRange(s)
    ensures done <==> l.Blank? && Exhausted(s)
    ensures s' == if done then s else AfterLine(s, l, f.mirror)
  {
    s', done := s, false;
    if NamesPackage(l) {
      s' := AfterPackage(s, l.text);
    } else if l.Blank? {
      var i, any := FindSlot(s.pkgs, s.cur.field);
      FirstSlotIsOne(s.pkgs, s.cur.field, i, FirstSlot(s.pkgs, s.cur.field));
      if any {
        s' := AfterBlank(s, i, f.mirror);
      } else {
        done := true;
      }
    } else {
      s' := AfterOther(s, l);
    }
  }

  /** dopkgmirrorpkgs in uniq mode */
  method PrintChunk(f: Source, names: seq<string>) returns (printed: seq<Out>)
    ensures printed == Pass(f, names)
  {
    var s := Start(f, names);
    var k, done := 0, false;
    while k < |f.lines| && !done
      invariant k <= |f.lines| && InRange(s)
      invariant Ran(f, s, k) == Ran(f, Start(f, names), 0)
      invariant done ==> Ran(f, s, k) == s
      decreases |f.lines| - k, !done
    {
      s, done := OnLine(f, f.lines[k], s);
      if !done {
        k := k + 1;
      }
    }
    printed := PrintMissing(Flushed(s).pkgs, Flushed(s).printed);
  }

  /** The names still in a slot are reported as missing, in order. */
  method PrintMissing(pkgs: seq<Option<string>>, before: seq<Out>) returns (printed: seq<Out>)
    ensures printed == before + MissingLines(Live(pkgs))
  {
    printed := before;
    assert pkgs[0..] == pkgs;
    for i := 0 to |pkgs|
      invariant printed + MissingLines(Live(pkgs[i..])) == before + MissingLines(Live(pkgs))
    {
      MissingFrom(printed, pkgs, i);
      if pkgs[i].Some? {
        printed := printed + [Missing(pkgs[i].value)];
      }
    }
    assert printed + [] == printed;
  }

  lemma MissingFrom(printed: seq<Out>, pkgs: seq<Option<string>>, i: nat)
    requires i < |pkgs|
    ensures printed + MissingLines(Live(pkgs[i..]))
         == (printed + MissingLines(Name(pkgs[i]))) + MissingLines(Live(pkgs[i + 1..]))
    ensures MissingLines(Name(pkgs[i])) == if pkgs[i].Some? then [Missing(pkgs[i].value)] else []
    ensures printed + [] == printed
  {
    assert pkgs[i..][0] == pkgs[i] && pkgs[i..][1..] == pkgs[i + 1..];
    var a, b := Name(pkgs[i]), Live(pkgs[i + 1..]);
    assert MissingLines(a + b) == MissingLines(a) + MissingLines(b);
  }

  /** The PKGS branch of main: a hundred arguments at a time while more than a hundred are left, then the rest. */
  method PrintPackages(file: seq<string>, checksumField: string, mirror: string, size0: string, checksum0: string,
                       args: seq<string>)
    returns (printed: seq<Out>)
    ensures printed == PassAll(Source(Lines(file, checksumField), mirror, size0, checksum0), args)
  {
    var f := Source(Lines(file, checksumField), mirror, size0, checksum0);
    var i := 0;
    printed := [];
    assert args[0..] == args && [] + PassAll(f, args) == PassAll(f, args);
    while |args| - i > MAX_PKGS
      invariant 0 <= i <= |args|
      invariant printed + PassAll(f, args[i..]) == PassAll(f, args)
    {
      NextHundred(f, args, i, printed);
      var chunk := PrintChunk(f, args[i..i + MAX_PKGS]);
      printed := printed + chunk;
      i := i + MAX_PKGS;
    }
    var chunk := PrintChunk(f, args[i..]);
    printed := printed + chunk;
  }

  lemma NextHundred(f: Source, args: seq<string>, i: nat, printed: seq<Out>)
    requires |args| - i > MAX_PKGS
    ensures printed + PassAll(f, args[i..])
         == (printed + Pass(f, args[i..i + MAX_PKGS])) + PassAll(f, args[i + MAX_PKGS..])
  {
    assert args[i..][..MAX_PKGS] == args[i..i + MAX_PKGS] && args[i..][MAX_PKGS..] == args[i + MAX_PKGS..];
  }
}
