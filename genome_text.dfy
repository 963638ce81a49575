/** The genome file format (main.py `Simulation.save_genome` / `load_genome`, show.py
    `load_file`): one line per genome entry, its integers written in decimal and joined by
    commas. Loading strips each line, splits it on commas and reads every field with
    Python's `int`, so text is taken here as it arrives from a file opened in text mode
    (line ends already translated to '\n'). */
module GenomeText {
  import opened Wrappers
  import opened Seqs

  // ---------------------------------------------------------------------------
  // Integers as text

  predicate IsDigit(c: char)
  {
    '0' <= c <= '9'
  }

  function DigitChar(d: int): (c: char)
    requires 0 <= d <= 9
    ensures IsDigit(c)
  {
    ('0' as int + d) as char
  }

  predicate AllDigits(s: string)
  {
    forall k :: 0 <= k < |s| ==> IsDigit(s[k])
  }

  /** Decimal digits of `n`, most significant first, without leading zeros. */
  function NatToString(n: nat): (s: string)
    ensures |s| > 0 && AllDigits(s)
    ensures n > 0 ==> s[0] != '0'
    decreases n
  {
    if n < 10 then [DigitChar(n)] else NatToString(n / 10) + [DigitChar(n % 10)]
  }

  /** `str(n)` for a Python int. */
  function IntToString(n: int): (s: string)
    ensures |s| > 0 && IsDigit(s[|s| - 1])
    ensures n >= 0 <==> IsDigit(s[0])
    ensures n < 0 <==> s[0] == '-'
  {
    if n < 0 then "-" + NatToString(-n) else NatToString(n)
  }

  /** The value of a string of decimal digits. */
  function DigitsValue(s: string): nat
    requires AllDigits(s)
  {
    if s == [] then 0 else DigitsValue(s[..|s| - 1]) * 10 + (s[|s| - 1] as int - '0' as int)
  }

  lemma {:induction false} NatToStringValue(n: nat)
    ensures DigitsValue(NatToString(n)) == n
    decreases n
  {
    if n >= 10 {
      var s := NatToString(n);
      assert s[..|s| - 1] == NatToString(n / 10);
      NatToStringValue(n / 10);
    }
  }

  /** Python's `str.isspace` alphabet: the characters `strip()` removes and `int()`
      ignores around its digits. */
  predicate IsSpace(c: char)
  {
    c == ' ' || ('\t' <= c <= '\r') || ('\U{1c}' <= c <= '\U{1f}') || c == '\U{85}' ||
    c == '\U{a0}' || c == '\U{1680}' || ('\U{2000}' <= c <= '\U{200a}') || c == '\U{2028}' ||
    c == '\U{2029}' || c == '\U{202f}' || c == '\U{205f}' || c == '\U{3000}'
  }

  /** `str.lstrip()`: the longest whitespace prefix removed. */
  function StripLeft(s: string): (r: string)
    ensures |r| <= |s| && r == s[|s| - |r|..]
    ensures forall k :: 0 <= k < |s| - |r| ==> IsSpace(s[k])
    ensures r != [] ==> !IsSpace(r[0])
    decreases |s|
  {
    if s != [] && IsSpace(s[0]) then
      var r := StripLeft(s[1..]);
      assert s[1..][|s| - 1 - |r|..] == s[|s| - |r|..];
      assert forall k :: 1 <= k < |s| - |r| ==> s[k] == s[1..][k - 1];
      r
    else s
  }

  /** `str.rstrip()`: the longest whitespace suffix removed. */
  function StripRight(s: string): (r: string)
    ensures |r| <= |s| && r == s[..|r|]
    ensures forall k :: |r| <= k < |s| ==> IsSpace(s[k])
    ensures r != [] ==> !IsSpace(r[|r| - 1])
    decreases |s|
  {
    if s != [] && IsSpace(s[|s| - 1]) then
      var r := StripRight(s[..|s| - 1]);
      assert s[..|s| - 1][..|r|] == s[..|r|];
      r
    else s
  }

  /** `r` is the piece of `s` starting at `i`, with only whitespace before and after it. */
  predicate Framed(s: string, i: int, r: string)
  {
    0 <= i <= |s| - |r| && r == s[i..i + |r|] &&
    (forall k :: 0 <= k < i ==> IsSpace(s[k])) && (forall k :: i + |r| <= k < |s| ==> IsSpace(s[k]))
  }

  /** `str.strip()`: leading and trailing whitespace removed; what is left is a
      contiguous piece of `s` with only whitespace on either side of it. */
  function Strip(s: string): (r: string)
    ensures |r| <= |s|
    ensures exists i :: Framed(s, i, r)
    ensures r != [] ==> !IsSpace(r[0]) && !IsSpace(r[|r| - 1])
  {
    var t := StripLeft(s);
    var r := StripRight(t);
    FramedPiece(s, t, r);
    r
  }

  /** Whitespace stripped off the front of `s`, giving `t`, and then off the back of `t`,
      giving `r`, leaves `r` framed in `s`. */
  lemma FramedPiece(s: string, t: string, r: string)
    requires |t| <= |s| && t == s[|s| - |t|..] && forall k :: 0 <= k < |s| - |t| ==> IsSpace(s[k])
    requires |r| <= |t| && r == t[..|r|] && forall k :: |r| <= k < |t| ==> IsSpace(t[k])
    ensures Framed(s, |s| - |t|, r)
  {
    var i := |s| - |t|;
    assert r == s[i..i + |r|];
    forall k | i + |r| <= k < |s| ensures IsSpace(s[k]) {
      assert s[k] == t[k - i];
    }
  }

  /** A string whose ends are not whitespace is its own strip. */
  lemma StripTidy(s: string)
    requires s != [] && !IsSpace(s[0]) && !IsSpace(s[|s| - 1])
    ensures Strip(s) == s
  {
  }

  predicate DigitsOrUnderscores(s: string)
  {
    forall k :: 0 <= k < |s| ==> IsDigit(s[k]) || s[k] == '_'
  }

  /** Python's `int()` literal body: digits, with single underscores allowed between
      two digits; that is, it starts and ends with a digit and no two underscores are
      neighbours. */
  predicate IsDecimal(s: string)
  {
    |s| > 0 && IsDigit(s[0]) && IsDigit(s[|s| - 1]) && DigitsOrUnderscores(s) &&
    forall k :: 0 <= k < |s| - 1 ==> IsDigit(s[k]) || IsDigit(s[k + 1])
  }

  /** The digits of a literal with its underscores dropped. */
  function DropUnderscores(s: string): (r: string)
    requires DigitsOrUnderscores(s)
    ensures AllDigits(r) && |r| <= |s|
    ensures AllDigits(s) ==> r == s
  {
    if s == [] then []
    else
      assert DigitsOrUnderscores(s[1..]) by {
        forall k | 0 <= k < |s| - 1 ensures IsDigit(s[1..][k]) || s[1..][k] == '_' {
          assert s[1..][k] == s[k + 1];
        }
      }
      (if s[0] == '_' then [] else [s[0]]) + DropUnderscores(s[1..])
  }

  /** Python's `int(s)` in base 10, restricted to ASCII digits: surrounding whitespace
      ignored, then what `Literal` accepts; anything else raises ValueError, here None.
      Python also reads the other Unicode decimal digits, which this model rejects. */
  function ParseInt(s: string): (r: Option<int>)
    ensures r.Some? ==> |Strip(s)| > 0
  {
    Literal(Strip(s))
  }

  /** An optional sign followed by a decimal literal. */
  function Literal(t: string): (r: Option<int>)
    ensures r.Some? ==> |t| > 0
  {
    if |t| > 0 && (t[0] == '-' || t[0] == '+') then
      if IsDecimal(t[1..]) then
        var v: int := DigitsValue(DropUnderscores(t[1..]));
        Some(if t[0] == '-' then -v else v)
      else None
    else if IsDecimal(t) then Some(DigitsValue(DropUnderscores(t)))
    else None
  }

  /** A string of digits is a literal of its own value. */
  lemma DigitsDecimal(d: string)
    requires d != [] && AllDigits(d)
    ensures IsDecimal(d) && DropUnderscores(d) == d
  {
  }

  /** Reading back what `str` wrote gives the integer. */
  lemma ParseIntToString(n: int)
    ensures ParseInt(IntToString(n)) == Some(n)
  {
    var s := IntToString(n);
    StripTidy(s);
    LiteralToString(n);
  }

  lemma LiteralToString(n: int)
    ensures Literal(IntToString(n)) == Some(n)
  {
    if n < 0 {
      var d := NatToString(-n);
      NatToStringValue(-n);
      DigitsDecimal(d);
      LiteralMinus(d, -n);
      assert IntToString(n) == "-" + d;
    } else {
      var d := NatToString(n);
      NatToStringValue(n);
      DigitsDecimal(d);
      LiteralPlain(d, n);
      assert IntToString(n) == d;
    }
  }

  /** A literal without a sign. */
  lemma LiteralPlain(d: string, v: nat)
    requires IsDecimal(d) && DigitsValue(DropUnderscores(d)) == v
    ensures Literal(d) == Some(v)
  {
  }

  /** A literal after a minus sign. */
  lemma LiteralMinus(d: string, v: nat)
    requires IsDecimal(d) && DigitsValue(DropUnderscores(d)) == v
    ensures Literal("-" + d) == Some(-(v as int))
  {
    var t := "-" + d;
    assert t[0] == '-' && t[1..] == d;
  }

  /** `int('')` and a sign alone are errors, not zero. */
  lemma ParseIntRejectsEmpty()
    ensures ParseInt("") == None && ParseInt(" \n") == None && ParseInt("-") == None
  {
    BlankStrip("");
    BlankStrip(" \n");
    StripTidy("-");
    SignAlone('-');
  }

  /** A sign with no digits after it is not a literal. */
  lemma SignAlone(c: char)
    requires c == '-' || c == '+'
    ensures Literal([c]) == None
  {
    assert [c][1..] == [];
    assert !IsDecimal([]);
  }

  // ---------------------------------------------------------------------------
  // Fields and lines

  /** Index of the first `sep` in `s`, or |s| when there is none. */
  function Find(s: string, sep: char): (i: nat)
    ensures i <= |s| && sep !in s[..i]
    ensures i < |s| ==> s[i] == sep
  {
    if s == [] then 0 else if s[0] == sep then 0 else 1 + Find(s[1..], sep)
  }

  /** `str.split(',')`: the pieces between commas; '' splits into [''] and every
      comma opens a new piece. */
  function Split(s: string): (r: seq<string>)
    ensures |r| >= 1
    ensures forall k :: 0 <= k < |r| ==> ',' !in r[k]
    decreases |s|
  {
    var i := Find(s, ',');
    if i == |s| then [s] else [s[..i]] + Split(s[i + 1..])
  }

  /** `','.join(parts)`. */
  function Join(parts: seq<string>): string
  {
    if parts == [] then "" else if |parts| == 1 then parts[0] else parts[0] + "," + Join(parts[1..])
  }

  /** Splitting undoes joining, as long as no piece holds a comma. */
  lemma {:induction false} SplitJoin(parts: seq<string>)
    requires |parts| >= 1 && forall k :: 0 <= k < |parts| ==> ',' !in parts[k]
    ensures Split(Join(parts)) == parts
    decreases |parts|
  {
    var p := parts[0];
    if |parts| == 1 {
      FindAbsent(p, ',');
    } else {
      var s := Join(parts);
      assert s == p + ("," + Join(parts[1..]));
      FindAbsent(p, ',');
      FindPrefix(p, "," + Join(parts[1..]), ',');
      assert s[..|p|] == p;
      assert s[|p| + 1..] == Join(parts[1..]);
      assert Split(s) == [p] + Split(Join(parts[1..]));
      assert forall k :: 0 <= k < |parts| - 1 ==> parts[1..][k] == parts[k + 1];
      SplitJoin(parts[1..]);
      assert parts == [p] + parts[1..];
    }
  }

  lemma FindAbsent(s: string, sep: char)
    requires sep !in s
    ensures Find(s, sep) == |s|
  {
    if s != [] {
      assert s[0] in s;
      assert forall c :: c in s[1..] ==> c in s;
      FindAbsent(s[1..], sep);
    }
  }

  lemma {:induction false} FindPrefix(a: string, b: string, sep: char)
    requires sep !in a && b != [] && b[0] == sep
    ensures Find(a + b, sep) == |a|
    decreases |a|
  {
    if a != [] {
      assert a[0] in a;
      assert (a + b)[1..] == a[1..] + b;
      assert forall c :: c in a[1..] ==> c in a;
      FindPrefix(a[1..], b, sep);
    }
  }

  /** The ends of a join are those of its first and last pieces. */
  lemma {:induction false} JoinEnds(parts: seq<string>)
    requires |parts| >= 1 && forall k :: 0 <= k < |parts| ==> parts[k] != []
    ensures Join(parts) != []
    ensures Join(parts)[0] == parts[0][0]
    ensures Join(parts)[|Join(parts)| - 1] == parts[|parts| - 1][|parts[|parts| - 1]| - 1]
    ensures '\n' !in Join(parts) <== forall k :: 0 <= k < |parts| ==> '\n' !in parts[k]
    decreases |parts|
  {
    if |parts| > 1 {
      JoinEnds(parts[1..]);
      var rest := Join(parts[1..]);
      assert Join(parts) == parts[0] + "," + rest;
      if forall k :: 0 <= k < |parts| ==> '\n' !in parts[k] {
        assert '\n' !in parts[1..][0];
        assert forall k :: 0 <= k < |parts| - 1 ==> '\n' !in parts[1..][k];
        assert '\n' !in rest;
        assert '\n' !in parts[0];
      }
    }
  }

  /** `map(str, entry)`. */
  function Strings(e: seq<int>): (r: seq<string>)
    ensures |r| == |e|
  {
    if e == [] then [] else [IntToString(e[0])] + Strings(e[1..])
  }

  lemma {:induction false} StringsAt(e: seq<int>, k: nat)
    requires k < |e|
    ensures Strings(e)[k] == IntToString(e[k])
    decreases k
  {
    if k > 0 {
      StringsAt(e[1..], k - 1);
    }
  }

  /** One line of a saved genome without its line end: `','.join(map(str, entry))`. */
  function FormatEntry(e: seq<int>): string
  {
    Join(Strings(e))
  }

  /** The file `save_genome` writes: every entry formatted, each followed by '\n'. */
  function Save(genome: seq<seq<int>>): (text: string)
    ensures genome == [] <==> text == []
  {
    if genome == [] then "" else FormatEntry(genome[0]) + "\n" + Save(genome[1..])
  }

  /** The lines of a file put back together. */
  function Concat(ls: seq<string>): string
  {
    if ls == [] then "" else ls[0] + Concat(ls[1..])
  }

  /** Iterating a text file: the lines make up the text, every line but the last ends
      in '\n', and no line holds '\n' before its end. */
  function Lines(text: string): (r: seq<string>)
    ensures forall k :: 0 <= k < |r| ==> r[k] != []
    ensures Concat(r) == text
    ensures forall k :: 0 <= k < |r| - 1 ==> r[k][|r[k]| - 1] == '\n'
    ensures forall k :: 0 <= k < |r| ==> '\n' !in r[k][..|r[k]| - 1]
    decreases |text|
  {
    if text == [] then []
    else
      var i := Find(text, '\n');
      if i == |text| then
        assert text[..|text| - 1] == text[..i][..|text| - 1];
        [text]
      else
        var rest := Lines(text[i + 1..]);
        assert text[..i + 1][..i] == text[..i];
        assert text[..i + 1] + text[i + 1..] == text;
        [text[..i + 1]] + rest
  }

  /** `int` applied to every field, failing as soon as one field fails. */
  function ParseAll(fields: seq<string>): (r: Option<seq<int>>)
    ensures r.Some? ==> |r.value| == |fields|
    ensures r.Some? ==> forall k :: 0 <= k < |fields| ==> ParseInt(fields[k]) == Some(r.value[k])
  {
    if fields == [] then Some([])
    else
      match ParseInt(fields[0])
      case None => None
      case Some(v) =>
        match ParseAll(fields[1..])
        case None => None
        case Some(vs) => Some([v] + vs)
  }

  /** `list(map(int, line.strip().split(',')))`. */
  function ParseLine(line: string): (r: Option<seq<int>>)
    ensures r.Some? ==> |r.value| == |Split(Strip(line))| >= 1
  {
    ParseAll(Split(Strip(line)))
  }

  /** A blank line (only whitespace) cannot be read: `int('')` raises. */
  lemma ParseLineBlank(line: string)
    requires forall k :: 0 <= k < |line| ==> IsSpace(line[k])
    ensures ParseLine(line) == None
  {
    BlankStrip(line);
    assert Split("") == [""];
    assert ParseInt("") == None;
  }

  lemma {:induction false} BlankStrip(s: string)
    requires forall k :: 0 <= k < |s| ==> IsSpace(s[k])
    ensures Strip(s) == ""
    decreases |s|
  {
    if s != [] {
      assert StripLeft(s) == StripLeft(s[1..]);
      BlankStrip(s[1..]);
    }
  }

  /** The load side of both programs: every line parsed, the whole load failing on the
      first line that cannot be read. */
  function ParseLines(lines: seq<string>): (r: Option<seq<seq<int>>>)
    ensures r.Some? ==> |r.value| == |lines|
    ensures r.Some? ==> forall k :: 0 <= k < |lines| ==> ParseLine(lines[k]) == Some(r.value[k])
  {
    if lines == [] then Some([])
    else
      match ParseLine(lines[0])
      case None => None
      case Some(v) =>
        match ParseLines(lines[1..])
        case None => None
        case Some(vs) =>
          ValuesCons(ParseLine, lines, v, vs);
          Some([v] + vs)
  }

  /** A value for the first element in front of the values for the rest. */
  lemma ValuesCons<A, B>(f: A -> Option<B>, xs: seq<A>, v: B, vs: seq<B>)
    requires xs != [] && f(xs[0]) == Some(v) && |vs| == |xs| - 1
    requires forall k :: 0 <= k < |xs| - 1 ==> f(xs[1..][k]) == Some(vs[k])
    ensures forall k :: 0 <= k < |xs| ==> f(xs[k]) == Some(([v] + vs)[k])
  {
    forall k | 1 <= k < |xs| ensures f(xs[k]) == Some(([v] + vs)[k]) {
      assert xs[k] == xs[1..][k - 1] && ([v] + vs)[k] == vs[k - 1];
    }
  }

  /** Reading a genome file. */
  function Load(text: string): (r: Option<seq<seq<int>>>)
    ensures r.Some? ==> |r.value| == |Lines(text)|
  {
    ParseLines(Lines(text))
  }

  // ---------------------------------------------------------------------------
  // Round trip

  /** The lines `save_genome` writes, each with its line end. */
  function SavedLines(genome: seq<seq<int>>): (r: seq<string>)
    ensures |r| == |genome|
  {
    if genome == [] then [] else [FormatEntry(genome[0]) + "\n"] + SavedLines(genome[1..])
  }

  lemma {:induction false} LinesOfSave(genome: seq<seq<int>>)
    requires forall k :: 0 <= k < |genome| ==> genome[k] != []
    ensures Lines(Save(genome)) == SavedLines(genome)
    decreases |genome|
  {
    if genome != [] {
      var line := FormatEntry(genome[0]);
      FormatEntryShape(genome[0]);
      var rest := Save(genome[1..]);
      assert Save(genome) == line + ("\n" + rest);
      FindPrefix(line, "\n" + rest, '\n');
      assert Save(genome)[..|line| + 1] == line + "\n";
      assert Save(genome)[|line| + 1..] == rest;
      LinesOfSave(genome[1..]);
      assert SavedLines(genome) == [line + "\n"] + SavedLines(genome[1..]);
    }
  }

  /** A formatted entry starts with a digit or '-', ends with a digit, and holds no
      line end and no whitespace at its ends. */
  lemma FormatEntryShape(e: seq<int>)
    requires e != []
    ensures FormatEntry(e) != []
    ensures !IsSpace(FormatEntry(e)[0]) && !IsSpace(FormatEntry(e)[|FormatEntry(e)| - 1])
    ensures '\n' !in FormatEntry(e)
  {
    var strs := Strings(e);
    forall k | 0 <= k < |strs|
      ensures strs[k] != [] && '\n' !in strs[k]
    {
      StringsAt(e, k);
      IntToStringChars(e[k]);
    }
    StringsAt(e, |e| - 1);
    JoinEnds(strs);
  }

  /** `str(n)` holds only digits and a leading '-'. */
  lemma IntToStringChars(n: int)
    ensures forall k :: 0 <= k < |IntToString(n)| ==> IsDigit(IntToString(n)[k]) || IntToString(n)[k] == '-'
    ensures ',' !in IntToString(n) && '\n' !in IntToString(n)
  {
    var s := IntToString(n);
    if ',' in s {
      var k :| 0 <= k < |s| && s[k] == ',';
    }
    if '\n' in s {
      var k :| 0 <= k < |s| && s[k] == '\n';
    }
  }

  /** One saved line reads back as the entry it was written from. */
  lemma ParseSavedLine(e: seq<int>)
    requires e != []
    ensures ParseLine(FormatEntry(e) + "\n") == Some(e)
  {
    var line := FormatEntry(e);
    FormatEntryShape(e);
    assert StripLeft(line + "\n") == line + "\n";
    assert (line + "\n")[..|line|] == line;
    assert StripRight(line + "\n") == StripRight(line);
    StripTidy(line);
    assert Strip(line + "\n") == line;
    var strs := Strings(e);
    forall k | 0 <= k < |strs|
      ensures ',' !in strs[k]
    {
      StringsAt(e, k);
      IntToStringChars(e[k]);
    }
    SplitJoin(strs);
    ParseAllStrings(e);
  }

  lemma ParseLinesCons(lines: seq<string>, v: seq<int>, vs: seq<seq<int>>)
    requires lines != [] && ParseLine(lines[0]) == Some(v) && ParseLines(lines[1..]) == Some(vs)
    ensures ParseLines(lines) == Some([v] + vs)
  {
  }

  lemma {:induction false} ParseAllStrings(e: seq<int>)
    ensures ParseAll(Strings(e)) == Some(e)
    decreases |e|
  {
    if e != [] {
      ParseAllStrings(e[1..]);
      StringsCons(e);
      ParseIntToString(e[0]);
      ParseAllStep(Strings(e), e);
    }
  }

  lemma StringsCons(e: seq<int>)
    requires e != []
    ensures Strings(e)[0] == IntToString(e[0]) && Strings(e)[1..] == Strings(e[1..])
  {
  }

  lemma ParseAllStep(fields: seq<string>, e: seq<int>)
    requires fields != [] && e != [] && ParseInt(fields[0]) == Some(e[0]) && ParseAll(fields[1..]) == Some(e[1..])
    ensures ParseAll(fields) == Some(e)
  {
    assert ParseAll(fields) == Some([e[0]] + e[1..]);
    HeadTail(e);
  }

  lemma {:induction false} ParseSavedLines(genome: seq<seq<int>>)
    requires forall k :: 0 <= k < |genome| ==> genome[k] != []
    ensures ParseLines(SavedLines(genome)) == Some(genome)
    decreases |genome|
  {
    if genome != [] {
      var ls := SavedLines(genome);
      ParseSavedLine(genome[0]);
      ParseSavedLines(genome[1..]);
      assert ls[0] == FormatEntry(genome[0]) + "\n" && ls[1..] == SavedLines(genome[1..]);
      ParseLinesCons(ls, genome[0], genome[1..]);
      HeadTail(genome);
    }
  }

  /** Loading a saved genome gives it back, entry for entry, whenever no entry is empty
      (an empty entry is written as a blank line, which does not read back). */
  lemma LoadSave(genome: seq<seq<int>>)
    requires forall k :: 0 <= k < |genome| ==> genome[k] != []
    ensures Load(Save(genome)) == Some(genome)
  {
    LinesOfSave(genome);
    ParseSavedLines(genome);
  }

  /** The one entry shape that does not survive: an empty entry. */
  lemma SaveEmptyEntryFails(genome: seq<seq<int>>)
    requires |genome| >= 1 && genome[0] == []
    ensures Load(Save(genome)) == None
  {
    var text := Save(genome);
    EmptyEntryLine(genome);
    BreakFirstLine(text);
    ParseLineBlank("\n");
    FirstLineFails(Lines(text));
  }

  /** A line that cannot be read fails the whole load. */
  lemma FirstLineFails(lines: seq<string>)
    requires lines != [] && ParseLine(lines[0]) == None
    ensures ParseLines(lines) == None
  {
  }

  /** An empty first entry is saved as a line end alone. */
  lemma EmptyEntryLine(genome: seq<seq<int>>)
    requires |genome| >= 1 && genome[0] == []
    ensures Save(genome) == "\n" + Save(genome[1..])
  {
    assert FormatEntry(genome[0]) == "" by { assert Strings(genome[0]) == []; }
  }

  /** A text that starts with a line end yields a blank first line. */
  lemma BreakFirstLine(text: string)
    requires text != [] && text[0] == '\n'
    ensures Lines(text) != [] && Lines(text)[0] == "\n"
  {
    assert Find(text, '\n') == 0;
    assert text[..1] == "\n";
  }
}
