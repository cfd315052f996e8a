/** Lines, fields and numbers as the project's table files write and read them. */
module Text {
  import opened Prelude

  // ----- splitting and joining -----

  /** The pieces between the separators, empty ones included. */
  function Split(s: string, c: char): (r: seq<string>)
    ensures |r| >= 1
  {
    if s == [] then [[]]
    else if s[0] == c then [[]] + Split(s[1..], c)
    else Prepend([s[0]], Split(s[1..], c))
  }

  function Prepend(p: string, r: seq<string>): (q: seq<string>)
    requires |r| >= 1
    ensures |q| == |r|
  {
    [p + r[0]] + r[1..]
  }

  lemma PrependLaws(p: string, q: string, r: seq<string>)
    requires |r| >= 1
    ensures Prepend([], r) == r
    ensures Prepend(p, Prepend(q, r)) == Prepend(p + q, r)
    ensures Prepend(p, [[]] + r) == [p] + r
  {
    ConcatAssoc(p, q, r[0]);
    assert [] + r[0] == r[0] && [r[0]] + r[1..] == r;
    assert ([[]] + r)[1..] == r && p + [] == p;
  }

  /** splitTab */
  method SplitAt(s: string, c: char) returns (out: seq<string>)
    ensures out == Split(s, c)
  {
    hide Split, Prepend;
    out := [];
    var a, i := 0, 0;
    assert s[0..] == s && s[0..0] == [];
    PrependLaws([], [], Split(s, c));
    while i < |s|
      invariant 0 <= a <= i <= |s|
      invariant Split(s, c) == out + Prepend(s[a..i], Split(s[i..], c))
    {
      SplitStep(s, i, c);
      var rest := Split(s[i + 1..], c);
      PrependLaws(s[a..i], [s[i]], rest);
      if s[i] == c {
        ConcatAssoc(out, [s[a..i]], rest);
        PrependLaws([], [], rest);
        out := out + [s[a..i]];
        a := i + 1;
        assert s[a..i + 1] == [];
      } else {
        assert s[a..i] + [s[i]] == s[a..i + 1];
      }
      i := i + 1;
    }
    SplitEnd(s[a..i], c);
    assert s[i..] == [];
    out := out + [s[a..i]];
  }

  lemma SplitStep(s: string, i: nat, c: char)
    requires i < |s|
    ensures var rest := Split(s[i + 1..], c);
            Split(s[i..], c) == if s[i] == c then [[]] + rest else Prepend([s[i]], rest)
  {
    hide Prepend;
    assert s[i..][1..] == s[i + 1..];
  }

  lemma SplitEnd(p: string, c: char)
    ensures Prepend(p, Split([], c)) == [p]
  {
    assert p + [] == p;
  }

  /** A piece without the separator comes off whole. */
  lemma {:induction false} SplitFirst(p: string, c: char, rest: string)
    requires c !in p
    ensures Split(p + [c] + rest, c) == [p] + Split(rest, c)
    ensures Split(p, c) == [p]
  {
    hide Prepend;
    if p == [] {
      assert ([] + [c] + rest)[1..] == rest;
    } else {
      SplitFirst(p[1..], c, rest);
      var s := p + [c] + rest;
      assert s[1..] == p[1..] + [c] + rest;
      assert [p[0]] + p[1..] == p;
      PrependPiece(p[0], p[1..], Split(rest, c));
    }
  }

  lemma PrependPiece(h: char, p: string, r: seq<string>)
    ensures Prepend([h], [p] + r) == [[h] + p] + r
    ensures Prepend([h], [p]) == [[h] + p]
  {
  }

  function Join(fields: seq<string>, c: char): string
    requires |fields| >= 1
  {
    if |fields| == 1 then fields[0] else fields[0] + [c] + Join(fields[1..], c)
  }

  ghost predicate Free(fields: seq<string>, c: char)
  {
    forall f :: f in fields ==> c !in f
  }

  lemma {:induction false} SplitJoin(fields: seq<string>, c: char)
    requires |fields| >= 1 && Free(fields, c)
    ensures Split(Join(fields, c), c) == fields
  {
    hide Split;
    assert fields[0] in fields;
    if |fields| == 1 {
      SplitFirst(fields[0], c, []);
    } else {
      assert forall f :: f in fields[1..] ==> f in fields;
      SplitJoin(fields[1..], c);
      SplitFirst(fields[0], c, Join(fields[1..], c));
      assert fields == [fields[0]] + fields[1..];
    }
  }

  lemma {:induction false} JoinFree(fields: seq<string>, c: char, d: char)
    requires |fields| >= 1 && Free(fields, d) && c != d
    ensures d !in Join(fields, c)
  {
    assert fields[0] in fields;
    if |fields| > 1 {
      assert forall f :: f in fields[1..] ==> f in fields;
      JoinFree(fields[1..], c, d);
    }
  }

  // ----- lines -----

  /** What getline yields: no line after a final newline. */
  function Lines(text: string): seq<string>
  {
    var r := Split(text, '\n');
    if r[|r| - 1] == [] then r[..|r| - 1] else r
  }

  function Unlines(lines: seq<string>): string
  {
    if lines == [] then [] else Unlines(lines[..|lines| - 1]) + (lines[|lines| - 1] + ['\n'])
  }

  lemma {:induction false} SplitLines(lines: seq<string>, rest: string)
    requires Free(lines, '\n')
    ensures Split(Unlines(lines) + rest, '\n') == lines + Split(rest, '\n')
    decreases |lines|
  {
    hide Split;
    if lines == [] {
      assert Unlines(lines) + rest == rest && lines + Split(rest, '\n') == Split(rest, '\n');
    } else {
      var n := |lines| - 1;
      assert lines[n] in lines && forall f :: f in lines[..n] ==> f in lines;
      SplitLines(lines[..n], lines[n] + ['\n'] + rest);
      SplitFirst(lines[n], '\n', rest);
      ConcatAssoc(Unlines(lines[..n]), lines[n] + ['\n'], rest);
      ConcatAssoc(lines[..n], [lines[n]], Split(rest, '\n'));
      assert lines[..n] + [lines[n]] == lines;
    }
  }

  lemma LinesBack(lines: seq<string>)
    requires Free(lines, '\n')
    ensures Lines(Unlines(lines)) == lines
  {
    SplitLines(lines, []);
    assert Unlines(lines) + [] == Unlines(lines);
    assert Split([], '\n') == [[]];
    assert (lines + [[]])[..|lines|] == lines;
  }

  // ----- tables -----

  predicate Skipped(line: string)
  {
    line == [] || line[0] == '#'
  }

  function RowOf<T>(line: string, parse: seq<string> -> Option<T>): seq<T>
  {
    if Skipped(line) then []
    else match parse(Split(line, '\t')) case None => [] case Some(row) => [row]
  }

  function RowsOf<T>(lines: seq<string>, parse: seq<string> -> Option<T>): seq<T>
  {
    if lines == [] then [] else RowsOf(lines[..|lines| - 1], parse) + RowOf(lines[|lines| - 1], parse)
  }

  /** The rows a table file holds. */
  function TableRows<T>(text: string, parse: seq<string> -> Option<T>): seq<T>
  {
    RowsOf(Lines(text), parse)
  }

  function RowLines<T>(rows: seq<T>, line: T -> string): seq<string>
  {
    if rows == [] then [] else RowLines(rows[..|rows| - 1], line) + [line(rows[|rows| - 1])]
  }

  /** A table file: a comment line, then one line a row. */
  function TableText<T>(header: string, rows: seq<T>, line: T -> string): string
  {
    Unlines([header] + RowLines(rows, line))
  }

  /** The reading loop shared by all tables. */
  method ReadRows<T>(text: string, parse: seq<string> -> Option<T>) returns (rows: seq<T>)
    ensures rows == TableRows(text, parse)
  {
    hide Split;
    var lines := SplitAt(text, '\n');
    if lines[|lines| - 1] == [] { lines := lines[..|lines| - 1]; }
    rows := [];
    var i := 0;
    while i < |lines|
      invariant 0 <= i <= |lines| && rows == RowsOf(lines[..i], parse)
    {
      assert lines[..i + 1][..i] == lines[..i];
      if !Skipped(lines[i]) {
        var fields := SplitAt(lines[i], '\t');
        match parse(fields) {
          case None =>
          case Some(row) => rows := rows + [row];
        }
      }
      i := i + 1;
    }
    assert lines[..i] == lines;
  }

  /** The writing loop shared by all tables. */
  method WriteRows<T>(header: string, rows: seq<T>, line: T -> string) returns (text: string)
    ensures text == TableText(header, rows, line)
  {
    text := header + ['\n'];
    HeaderLine(header);
    assert RowLines(rows[..0], line) == [] && [header] + [] == [header];
    var i := 0;
    while i < |rows|
      invariant 0 <= i <= |rows| && text == Unlines([header] + RowLines(rows[..i], line))
    {
      text := text + (line(rows[i]) + ['\n']);
      assert rows[..i + 1][..i] == rows[..i];
      UnlinesSnoc([header] + RowLines(rows[..i], line), line(rows[i]));
      ConcatAssoc([header], RowLines(rows[..i], line), [line(rows[i])]);
      i := i + 1;
    }
    assert rows[..i] == rows;
  }

  lemma HeaderLine(header: string)
    ensures Unlines([header]) == header + ['\n']
  {
    assert [header][..0] == [];
  }

  lemma UnlinesSnoc(lines: seq<string>, l: string)
    ensures Unlines(lines + [l]) == Unlines(lines) + (l + ['\n'])
  {
    assert (lines + [l])[..|lines|] == lines;
  }

  /** A row's line is read as `back` of the row. */
  ghost predicate ReadsAs<T>(row: T, line: T -> string, parse: seq<string> -> Option<T>, back: T -> T)
  {
    !Skipped(line(row)) && '\n' !in line(row) && parse(Split(line(row), '\t')) == Some(back(row))
  }

  /** ... as the row itself. */
  ghost predicate Sound<T>(row: T, line: T -> string, parse: seq<string> -> Option<T>)
  {
    !Skipped(line(row)) && '\n' !in line(row) && parse(Split(line(row), '\t')) == Some(row)
  }

  function Mapped<T>(rows: seq<T>, back: T -> T): seq<T>
  {
    if rows == [] then [] else Mapped(rows[..|rows| - 1], back) + [back(rows[|rows| - 1])]
  }

  function Same<T>(x: T): T { x }

  lemma {:induction false} MappedSame<T>(rows: seq<T>)
    ensures Mapped(rows, Same) == rows
  {
    if rows != [] {
      MappedSame(rows[..|rows| - 1]);
      assert rows[..|rows| - 1] + [rows[|rows| - 1]] == rows;
    }
  }

  lemma {:induction false} RowsBack<T>(rows: seq<T>, line: T -> string, parse: seq<string> -> Option<T>, back: T -> T)
    requires forall r :: r in rows ==> ReadsAs(r, line, parse, back)
    ensures RowsOf(RowLines(rows, line), parse) == Mapped(rows, back) && Free(RowLines(rows, line), '\n')
    ensures |RowLines(rows, line)| == |rows|
  {
    hide Split, RowsOf;
    if rows == [] {
      NoRows(parse);
    } else {
      var n := |rows| - 1;
      assert rows[n] in rows && forall r :: r in rows[..n] ==> r in rows;
      RowsBack(rows[..n], line, parse, back);
      OneMoreLine(RowLines(rows[..n], line), line(rows[n]), parse);
      assert RowOf(line(rows[n]), parse) == [back(rows[n])];
    }
  }

  lemma NoRows<T>(parse: seq<string> -> Option<T>)
    ensures RowsOf([], parse) == []
  {
  }

  lemma OneMoreLine<T>(lines: seq<string>, l: string, parse: seq<string> -> Option<T>)
    ensures RowsOf(lines + [l], parse) == RowsOf(lines, parse) + RowOf(l, parse)
  {
    hide RowOf;
    assert (lines + [l])[..|lines|] == lines;
  }

  /** A table file is read as what its rows are read as. */
  lemma TableReadsAs<T>(header: string, rows: seq<T>, line: T -> string, parse: seq<string> -> Option<T>, back: T -> T)
    requires Skipped(header) && '\n' !in header
    requires forall r :: r in rows ==> ReadsAs(r, line, parse, back)
    ensures TableRows(TableText(header, rows, line), parse) == Mapped(rows, back)
  {
    hide Split, Unlines, Lines;
    RowsBack(rows, line, parse, back);
    var lines := [header] + RowLines(rows, line);
    LinesBack(lines);
    SkipHeader(header, RowLines(rows, line), parse);
  }

  /** A table file of sound rows reads back as those rows. */
  lemma TableReadsBack<T>(header: string, rows: seq<T>, line: T -> string, parse: seq<string> -> Option<T>)
    requires Skipped(header) && '\n' !in header
    requires forall r :: r in rows ==> Sound(r, line, parse)
    ensures TableRows(TableText(header, rows, line), parse) == rows
  {
    hide Split, TableRows, TableText, Skipped;
    forall r | r in rows ensures ReadsAs(r, line, parse, Same) {
      assert Sound(r, line, parse);
    }
    TableReadsAs(header, rows, line, parse, Same);
    MappedSame(rows);
  }

  lemma {:induction false} SkipHeader<T>(header: string, lines: seq<string>, parse: seq<string> -> Option<T>)
    requires Skipped(header)
    ensures RowsOf([header] + lines, parse) == RowsOf(lines, parse)
    decreases |lines|
  {
    hide Split;
    var all := [header] + lines;
    if lines == [] {
      assert all[..0] == [] && all == [header];
    } else {
      var n := |lines| - 1;
      SkipHeader(header, lines[..n], parse);
      assert all[..|all| - 1] == [header] + lines[..n] && all[|all| - 1] == lines[n];
    }
  }

  // ----- numbers -----

  const DIGITS := "0123456789ABCDEF"

  function DigitOf(ch: char): (d: nat)
  {
    if '0' <= ch <= '9' then ch as int - '0' as int
    else if 'A' <= ch <= 'F' then ch as int - 'A' as int + 10
    else if 'a' <= ch <= 'f' then ch as int - 'a' as int + 10
    else 16
  }

  predicate IsDigit(ch: char, base: nat)
  {
    DigitOf(ch) < base
  }

  lemma DigitBack(d: nat)
    requires d < 16
    ensures DigitOf(DIGITS[d]) == d
    ensures DIGITS[d] !in ['\t', '\n', '#', ':', ',']
    ensures d > 0 ==> DIGITS[d] != '0'
  {
  }

  /** The number written with `n` hexadecimal digits, as `%06X` does for numbers that fit. */
  function Hex(v: nat, n: nat): (s: string)
    ensures |s| == n
  {
    if n == 0 then [] else Hex(v / 16, n - 1) + [DIGITS[v % 16]]
  }

  function Decimal(v: nat): (s: string)
    ensures |s| >= 1
  {
    if v < 10 then [DIGITS[v]] else Decimal(v / 10) + [DIGITS[v % 10]]
  }

  function DigitsLength(s: string, base: nat): (n: nat)
    ensures n <= |s|
  {
    if s == [] || !IsDigit(s[0], base) then 0 else 1 + DigitsLength(s[1..], base)
  }

  function Value(s: string, base: nat): nat
  {
    if s == [] then 0 else Value(s[..|s| - 1], base) * base + DigitOf(s[|s| - 1])
  }

  predicate IsBlank(ch: char)
  {
    ch == ' ' || '\t' <= ch <= '\r'
  }

  function SkipBlanks(s: string): string
  {
    if s != [] && IsBlank(s[0]) then SkipBlanks(s[1..]) else s
  }

  /** `0x` and at least one digit behind it. */
  predicate Prefixed(s: string)
  {
    |s| >= 3 && s[0] == '0' && (s[1] == 'x' || s[1] == 'X') && IsDigit(s[2], 16)
  }

  /** The digits from the start on; None when the number does not fit 64 bits. */
  function ParseDigits(s: string, base: nat): Option<u64>
  {
    var v := Value(s[..DigitsLength(s, base)], base);
    if v < 0x1_0000_0000_0000_0000 then Some(v) else None
  }

  function ParseUnsigned(s: string, base: nat): Option<u64>
  {
    if (base == 0 || base == 16) && Prefixed(s) then ParseDigits(s[2..], 16)
    else if base != 0 then ParseDigits(s, base)
    else ParseDigits(s, if s != [] && s[0] == '0' then 8 else 10)
  }

  /** strtoul and strtoull: blanks, a sign that negates modulo 2^64, a prefix, digits; the largest value on overflow. */
  function ParseNumber(text: string, base: nat): (v: u64)
  {
    var s := SkipBlanks(text);
    var negative := s != [] && s[0] == '-';
    var signed := negative || (s != [] && s[0] == '+');
    match ParseUnsigned(if signed then s[1..] else s, base)
    case None => 0xFFFF_FFFF_FFFF_FFFF
    case Some(v) => if negative then Negated(v) else v
  }

  function Negated(v: int): u64 { -v % 0x1_0000_0000_0000_0000 }

  ghost predicate AllDigits(s: string, base: nat)
  {
    forall i :: 0 <= i < |s| ==> IsDigit(s[i], base)
  }

  lemma {:induction false} DigitsEnd(s: string, base: nat, rest: string)
    requires AllDigits(s, base) && (rest == [] || !IsDigit(rest[0], base))
    ensures DigitsLength(s + rest, base) == |s|
  {
    if s == [] {
      assert s + rest == rest;
    } else {
      assert (s + rest)[1..] == s[1..] + rest;
      DigitsEnd(s[1..], base, rest);
    }
  }

  lemma {:induction false} HexDigits(v: nat, n: nat)
    ensures AllDigits(Hex(v, n), 16) && forall c :: c in Hex(v, n) ==> c !in ['\t', '\n', '#', ':', ',']
  {
    if n > 0 {
      HexDigits(v / 16, n - 1);
      DigitBack(v % 16);
    }
  }

  lemma {:induction false} DecimalDigits(v: nat)
    ensures AllDigits(Decimal(v), 10) && forall c :: c in Decimal(v) ==> c !in ['\t', '\n', '#', ':', ',']
    ensures v > 0 ==> Decimal(v)[0] != '0'
    ensures v == 0 ==> Decimal(v) == "0"
  {
    DigitBack(v % 10);
    if v >= 10 { DecimalDigits(v / 10); }
  }

  function Pow16(n: nat): (p: nat)
    ensures p > 0
  {
    if n == 0 then 1 else 16 * Pow16(n - 1)
  }

  lemma {:induction false} HexValue(v: nat, n: nat)
    requires v < Pow16(n)
    ensures Value(Hex(v, n), 16) == v
  {
    if n > 0 {
      DivideBelow(v, Pow16(n - 1));
      HexValue(v / 16, n - 1);
      DigitBack(v % 16);
      var s := Hex(v, n);
      assert s[..n - 1] == Hex(v / 16, n - 1);
    }
  }

  lemma DivideBelow(v: nat, p: nat)
    requires v < 16 * p
    ensures v / 16 < p
  {
  }

  lemma {:induction false} DecimalValue(v: nat)
    ensures Value(Decimal(v), 10) == v
  {
    DigitBack(v % 10);
    var s := Decimal(v);
    if v < 10 {
      assert s[..0] == [];
    } else {
      DecimalValue(v / 10);
      assert s[..|s| - 1] == Decimal(v / 10);
    }
  }

  /** Text that starts with a digit has neither blank nor sign. */
  lemma StartsWithDigit(s: string, base: nat)
    requires s != [] && IsDigit(s[0], 16)
    ensures ParseNumber(s, base) == match ParseUnsigned(s, base) case None => 0xFFFF_FFFF_FFFF_FFFF case Some(v) => v
  {
    hide ParseUnsigned;
  }

  /** A fixed-width hexadecimal number is read back, whatever follows it that is neither a digit nor an x. */
  lemma HexReadsBack(v: u64, n: nat, rest: string)
    requires n > 0 && v < Pow16(n) && (rest == [] || (!IsDigit(rest[0], 16) && rest[0] != 'x' && rest[0] != 'X'))
    ensures ParseNumber(Hex(v, n) + rest, 16) == v
  {
    hide Hex, Value, DigitsLength, ParseNumber, IsDigit;
    var s := Hex(v, n) + rest;
    HexDigits(v, n);
    HexValue(v, n);
    DigitsEnd(Hex(v, n), 16, rest);
    assert s[..n] == Hex(v, n);
    assert s[0] == Hex(v, n)[0];
    if |s| >= 3 {
      if n > 1 { assert s[1] == Hex(v, n)[1]; } else { assert s[1] == rest[0]; }
      NoX();
    }
    StartsWithDigit(s, 16);
  }

  lemma NoX()
    ensures !IsDigit('x', 16) && !IsDigit('X', 16)
  {
  }

  /** A decimal number is read back with base 0: it never starts with a zero that would make it octal. */
  lemma DecimalReadsBack(v: u64)
    ensures ParseNumber(Decimal(v), 0) == v
  {
    hide Decimal, Value, DigitsLength, ParseNumber, IsDigit;
    DecimalDigits(v);
    DecimalValue(v);
    var s := Decimal(v);
    DigitsEnd(s, 10, []);
    assert s + [] == s && s[..|s|] == s;
    DigitIsHex(s[0]);
    StartsWithDigit(s, 0);
    if v == 0 { OctalZero(); }
  }

  lemma DigitIsHex(ch: char)
    requires IsDigit(ch, 10)
    ensures IsDigit(ch, 16)
  {
  }

  lemma OctalZero()
    ensures DigitsLength("0", 8) == 1 && Value("0", 8) == 0
  {
    var s := "0";
    assert s[1..] == [] && s[..0] == [];
  }
}
