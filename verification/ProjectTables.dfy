/** The rows of a project's tables and the lines they are stored as. */
module ProjectTables {
  import opened Prelude
  import opened Text

  const ADDRESSES := 0x100_0000
  const U32 := 0x1_0000_0000

  /** Flags are 0, 1 or -1 for unset. */
  datatype Label = Label(addr: nat, name: string, kind: string, m: int, x: int, e: int, comment: string)

  datatype Bookmark = Bookmark(name: string, addr: nat, view: string, comment: string)

  datatype BpKind = Exec | Read | Write

  datatype Breakpoint = Breakpoint(kind: BpKind, lo: nat, hi: nat, halt: bool, enabled: bool, comment: string)

  /** The kind as the CPU core reports it: 0 for RTS, 1 for RTL, 2 for RTI. */
  datatype Exit = Exit(pc: nat, kind: byte)

  datatype FuncInfo = FuncInfo(entry: nat, callCount: u32, lastFrame: u64, exits: seq<Exit>)

  datatype DmaProv = DmaProv(src: nat, size: u16, dst: byte, caller: nat, hits: u32, lastFrame: u64)

  // ----- what callers may put into a table -----

  ghost predicate Clean(s: string)
  {
    '\t' !in s && '\n' !in s
  }

  ghost predicate GoodLabel(l: Label)
  {
    && l.addr < ADDRESSES && Clean(l.name) && Clean(l.kind) && Clean(l.comment)
    && -1 <= l.m <= 1 && -1 <= l.x <= 1 && -1 <= l.e <= 1
  }

  ghost predicate GoodBookmark(b: Bookmark)
  {
    b.addr < ADDRESSES && Clean(b.name) && Clean(b.view) && Clean(b.comment) && (b.name == [] || b.name[0] != '#')
  }

  ghost predicate GoodBreakpoint(b: Breakpoint)
  {
    b.lo < ADDRESSES && b.hi < ADDRESSES && Clean(b.comment)
  }

  ghost predicate GoodFunc(f: FuncInfo)
  {
    f.entry < ADDRESSES && GoodExits(f.exits)
  }

  ghost predicate GoodDma(d: DmaProv)
  {
    d.src < ADDRESSES && d.caller < ADDRESSES
  }

  // ----- lines -----

  function FlagStr(v: int): string
  {
    if v == 0 then "0" else if v == 1 then "1" else ""
  }

  function ParseFlag(s: string): int
  {
    if s == "0" then 0 else if s == "1" then 1 else -1
  }

  function Address(v: nat): string
  {
    Hex(v % ADDRESSES, 6)
  }

  function LabelFields(l: Label): seq<string>
  {
    [Address(l.addr), l.name, l.kind, FlagStr(l.m), FlagStr(l.x), FlagStr(l.e), l.comment]
  }

  function LabelLine(l: Label): string { Join(LabelFields(l), '\t') }

  function ParseLabel(f: seq<string>): Option<Label>
  {
    if |f| < 1 then None
    else
      Some(Label(ParseNumber(f[0], 16) % ADDRESSES, if |f| > 1 then f[1] else "", if |f| > 2 then f[2] else "",
                 if |f| > 3 then ParseFlag(f[3]) else -1, if |f| > 4 then ParseFlag(f[4]) else -1,
                 if |f| > 5 then ParseFlag(f[5]) else -1, if |f| > 6 then f[6] else ""))
  }

  function BookmarkFields(b: Bookmark): seq<string> { [b.name, Address(b.addr), b.view, b.comment] }

  function BookmarkLine(b: Bookmark): string { Join(BookmarkFields(b), '\t') }

  function ParseBookmark(f: seq<string>): Option<Bookmark>
  {
    if |f| < 2 then None
    else
      Some(Bookmark(f[0], ParseNumber(f[1], 16) % U32, if |f| > 2 then f[2] else "", if |f| > 3 then f[3] else ""))
  }

  function KindName(k: BpKind): string
  {
    if k == Read then "read" else if k == Write then "write" else "exec"
  }

  function Bit(b: bool): string { if b then "1" else "0" }

  function BreakpointFields(b: Breakpoint): seq<string>
  {
    [KindName(b.kind), Address(b.lo), Address(b.hi), Bit(b.halt), Bit(b.enabled), b.comment]
  }

  function BreakpointLine(b: Breakpoint): string { Join(BreakpointFields(b), '\t') }

  function ParseBreakpoint(f: seq<string>): Option<Breakpoint>
  {
    if |f| < 5 then None
    else
      Some(Breakpoint(if f[0] == "read" then Read else if f[0] == "write" then Write else Exec,
                      ParseNumber(f[1], 16) % U32, ParseNumber(f[2], 16) % U32, f[3] == "1", f[4] == "1",
                      if |f| > 5 then f[5] else ""))
  }

  function ExitText(e: Exit): string { Address(e.pc) + [':'] + Decimal(e.kind) }

  function ExitTexts(es: seq<Exit>): (r: seq<string>)
    ensures |r| == |es|
  {
    if es == [] then [] else ExitTexts(es[..|es| - 1]) + [ExitText(es[|es| - 1])]
  }

  function ExitsText(es: seq<Exit>): string
  {
    if es == [] then [] else Join(ExitTexts(es), ',')
  }

  function Find(s: string, c: char): (n: nat)
    ensures n <= |s|
  {
    if s == [] || s[0] == c then 0 else 1 + Find(s[1..], c)
  }

  function ParseExit(s: string): Exit
  {
    var colon := Find(s, ':');
    Exit(ParseNumber(s, 16) % U32, if colon < |s| && s[colon + 1..] == "1" then 1 else 0)
  }

  /** Pieces between commas; empty ones say nothing. */
  function ParseExits(pieces: seq<string>): seq<Exit>
  {
    if pieces == [] then []
    else
      var last := pieces[|pieces| - 1];
      ParseExits(pieces[..|pieces| - 1]) + if last == [] then [] else [ParseExit(last)]
  }

  function FuncFields(f: FuncInfo): seq<string>
  {
    [Address(f.entry), Decimal(f.callCount), Decimal(f.lastFrame), ExitsText(f.exits)]
  }

  function FuncLine(f: FuncInfo): string { Join(FuncFields(f), '\t') }

  function ParseFunc(f: seq<string>): Option<FuncInfo>
  {
    if |f| < 4 then None
    else
      Some(FuncInfo(ParseNumber(f[0], 16) % U32, ParseNumber(f[1], 0) % U32, ParseNumber(f[2], 0),
                    ParseExits(Split(f[3], ','))))
  }

  function DmaFields(d: DmaProv): seq<string>
  {
    [Address(d.src), Decimal(d.size), Hex(d.dst, 2), Address(d.caller), Decimal(d.hits), Decimal(d.lastFrame)]
  }

  function DmaLine(d: DmaProv): string { Join(DmaFields(d), '\t') }

  function ParseDma(f: seq<string>): Option<DmaProv>
  {
    if |f| < 6 then None
    else
      Some(DmaProv(ParseNumber(f[0], 16) % U32, ParseNumber(f[1], 0) % 0x1_0000, ParseNumber(f[2], 16) % 0x100,
                   ParseNumber(f[3], 16) % U32, ParseNumber(f[4], 0) % U32, ParseNumber(f[5], 0)))
  }

  // ----- every row is read back from its line -----

  lemma {:induction false} JoinHead(fields: seq<string>, c: char)
    requires |fields| > 1
    ensures Join(fields, c) != []
    ensures Join(fields, c)[0] == if fields[0] == [] then c else fields[0][0]
  {
  }

  /** A line of clean fields splits into them and is not taken for a comment. */
  lemma FieldsBack(fields: seq<string>)
    requires |fields| > 1 && (fields[0] == [] || fields[0][0] != '#')
    requires forall i :: 0 <= i < |fields| ==> Clean(fields[i])
    ensures var line := Join(fields, '\t'); !Skipped(line) && '\n' !in line && Split(line, '\t') == fields
  {
    hide Join, Split;
    SplitJoin(fields, '\t');
    JoinFree(fields, '\t', '\n');
    JoinHead(fields, '\t');
  }

  lemma AddressBack(v: nat)
    requires v < ADDRESSES
    ensures Clean(Address(v)) && Address(v) != [] && Address(v)[0] != '#'
    ensures ParseNumber(Address(v), 16) == v
  {
    hide Hex, ParseNumber;
    SixDigits();
    HexReadsBack(v, 6, []);
    HexDigits(v, 6);
    assert Address(v) + [] == Address(v);
    assert Address(v)[0] in Address(v);
  }

  lemma SixDigits()
    ensures Pow16(6) == ADDRESSES && Pow16(2) == 0x100
  {
    assert Pow16(3) == 0x1000;
  }

  lemma ByteBack(v: byte)
    ensures Clean(Hex(v, 2)) && ParseNumber(Hex(v, 2), 16) == v
  {
    hide Hex, ParseNumber;
    SixDigits();
    HexReadsBack(v, 2, []);
    HexDigits(v, 2);
    assert Hex(v, 2) + [] == Hex(v, 2);
  }

  lemma CountBack(v: u64)
    ensures Clean(Decimal(v)) && ParseNumber(Decimal(v), 0) == v
  {
    hide Decimal, ParseNumber;
    DecimalReadsBack(v);
    DecimalDigits(v);
  }

  lemma LabelBack(l: Label)
    requires GoodLabel(l)
    ensures Sound(l, LabelLine, ParseLabel)
  {
    hide Join, Split, Address, ParseNumber;
    AddressBack(l.addr);
    FieldsBack(LabelFields(l));
  }

  lemma BookmarkBack(b: Bookmark)
    requires GoodBookmark(b)
    ensures Sound(b, BookmarkLine, ParseBookmark)
  {
    hide Join, Split, Address, ParseNumber;
    AddressBack(b.addr);
    FieldsBack(BookmarkFields(b));
  }

  lemma BreakpointBack(b: Breakpoint)
    requires GoodBreakpoint(b)
    ensures Sound(b, BreakpointLine, ParseBreakpoint)
  {
    hide Join, Split, Address, ParseNumber;
    AddressBack(b.lo);
    AddressBack(b.hi);
    FieldsBack(BreakpointFields(b));
  }

  lemma DmaBack(d: DmaProv)
    requires GoodDma(d)
    ensures Sound(d, DmaLine, ParseDma)
  {
    hide Join, Split, Address, ParseNumber, Hex, Decimal;
    AddressBack(d.src);
    AddressBack(d.caller);
    ByteBack(d.dst);
    CountBack(d.size);
    CountBack(d.hits);
    CountBack(d.lastFrame);
    FieldsBack(DmaFields(d));
  }

  lemma {:induction false} FindAfter(p: string, c: char, rest: string)
    requires c !in p
    ensures Find(p + [c] + rest, c) == |p|
  {
    if p == [] {
    } else {
      assert (p + [c] + rest)[1..] == p[1..] + [c] + rest;
      FindAfter(p[1..], c, rest);
    }
  }

  /** What the file format keeps of an exit kind. */
  function ReadExit(e: Exit): Exit { e.(kind := if e.kind == 1 then 1 else 0) }

  function ReadFunc(f: FuncInfo): FuncInfo { f.(exits := Mapped(f.exits, ReadExit)) }

  lemma OnlyOneIsOne(k: nat)
    ensures Decimal(k) == "1" <==> k == 1
  {
    hide Decimal, Value;
    DecimalValue(k);
    DecimalValue(1);
    One();
  }

  lemma One()
    ensures Decimal(1) == "1"
  {
  }

  lemma ExitBack(e: Exit)
    requires e.pc < ADDRESSES
    ensures ParseExit(ExitText(e)) == ReadExit(e) && ExitText(e) != []
    ensures Clean(ExitText(e)) && ',' !in ExitText(e)
  {
    hide Hex, ParseNumber, Find, Decimal;
    var pc := Address(e.pc);
    SixDigits();
    HexDigits(e.pc, 6);
    HexReadsBack(e.pc, 6, [':'] + Decimal(e.kind));
    ConcatAssoc(pc, [':'], Decimal(e.kind));
    FindAfter(pc, ':', Decimal(e.kind));
    assert ExitText(e)[|pc| + 1..] == Decimal(e.kind);
    DecimalDigits(e.kind);
    OnlyOneIsOne(e.kind);
  }

  ghost predicate GoodExits(es: seq<Exit>)
  {
    forall e :: e in es ==> e.pc < ADDRESSES
  }

  ghost predicate Pieces(ts: seq<string>)
  {
    forall t :: t in ts ==> Clean(t) && ',' !in t
  }

  lemma {:induction false} ExitTextsClean(es: seq<Exit>)
    requires GoodExits(es)
    ensures Pieces(ExitTexts(es)) && ParseExits(ExitTexts(es)) == Mapped(es, ReadExit)
  {
    hide ExitText, ParseExit, ParseExits, Clean, Pieces, GoodExits, ReadExit;
    if es == [] {
      NoPieces();
    } else {
      var n := |es| - 1;
      SplitExits(es);
      ExitTextsClean(es[..n]);
      ExitBack(es[n]);
      OneMoreExit(ExitTexts(es[..n]), ExitText(es[n]));
    }
  }

  lemma NoPieces()
    ensures Pieces([]) && ParseExits([]) == []
  {
  }

  lemma SplitExits(es: seq<Exit>)
    requires es != [] && GoodExits(es)
    ensures GoodExits(es[..|es| - 1]) && es[|es| - 1].pc < ADDRESSES
  {
    assert forall e :: e in es[..|es| - 1] ==> e in es;
  }

  lemma OneMoreExit(ts: seq<string>, t: string)
    requires Pieces(ts) && Clean(t) && ',' !in t && t != []
    ensures Pieces(ts + [t]) && ParseExits(ts + [t]) == ParseExits(ts) + [ParseExit(t)]
  {
    hide ParseExit, Clean;
    assert (ts + [t])[..|ts|] == ts;
  }

  lemma ExitsBack(es: seq<Exit>)
    requires GoodExits(es)
    ensures Clean(ExitsText(es)) && ParseExits(Split(ExitsText(es), ',')) == Mapped(es, ReadExit)
  {
    hide ExitText, ParseExit, Split, Join, ExitTexts;
    if es == [] {
      NoExits();
    } else {
      ExitTextsClean(es);
      SplitJoin(ExitTexts(es), ',');
      JoinFree(ExitTexts(es), ',', '\t');
      JoinFree(ExitTexts(es), ',', '\n');
    }
  }

  lemma NoExits()
    ensures ParseExits(Split([], ',')) == []
  {
    var pieces := Split([], ',');
    assert pieces == [[]] && pieces[..0] == [];
  }

  /** A function's line is read as the function with every exit kind but 1 read as 0. */
  lemma FuncBack(f: FuncInfo)
    requires GoodFunc(f)
    ensures ReadsAs(f, FuncLine, ParseFunc, ReadFunc)
  {
    hide Join, Split, Address, ParseNumber, Decimal, ExitsText, ParseExits, Mapped;
    AddressBack(f.entry);
    CountBack(f.callCount);
    CountBack(f.lastFrame);
    ExitsBack(f.exits);
    FieldsBack(FuncFields(f));
  }
}
