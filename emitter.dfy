/** The emitter (`_print_header`, `_print_records`): the generated header and one C
    initializer line per record, in Python's tuple order. Output is a sequence of lines;
    each `print` writes one line. */
module Emitter {
  import opened Wrappers
  import opened Text
  import opened Numerals
  import opened Os2Ranges

  // ----- Python's ordering of the record tuples -------------------------------------

  /** Python's `<=` on strings: code point by code point, a proper prefix first. */
  predicate StrLe(a: string, b: string)
    decreases |a|
  {
    if |a| == 0 then true
    else if |b| == 0 then false
    else if a[0] != b[0] then a[0] < b[0]
    else StrLe(a[1..], b[1..])
  }

  lemma {:induction false} StrLeTotal(a: string, b: string)
    ensures StrLe(a, b) || StrLe(b, a)
    decreases |a|
  {
    if |a| > 0 && |b| > 0 && a[0] == b[0] {
      StrLeTotal(a[1..], b[1..]);
    }
  }

  lemma {:induction false} StrLeReflexive(a: string)
    ensures StrLe(a, a)
    decreases |a|
  {
    if |a| > 0 {
      StrLeReflexive(a[1..]);
    }
  }

  lemma {:induction false} StrLeAntisymmetric(a: string, b: string)
    requires StrLe(a, b) && StrLe(b, a)
    ensures a == b
    decreases |a|
  {
    if |a| > 0 {
      StrLeAntisymmetric(a[1..], b[1..]);
      assert a == [a[0]] + a[1..] && b == [b[0]] + b[1..];
    }
  }

  lemma {:induction false} StrLeTransitive(a: string, b: string, c: string)
    requires StrLe(a, b) && StrLe(b, c)
    ensures StrLe(a, c)
    decreases |a|
  {
    if |a| > 0 && a[0] == b[0] && b[0] == c[0] {
      StrLeTransitive(a[1..], b[1..], c[1..]);
    }
  }

  /** Python's `<=` on the tuples `(start, end, count, os2_num, name)`. */
  predicate RecordLe(x: Record, y: Record)
  {
    if x.start != y.start then x.start < y.start
    else if x.end != y.end then x.end < y.end
    else if x.count != y.count then x.count < y.count
    else if x.bit != y.bit then x.bit < y.bit
    else StrLe(x.name, y.name)
  }

  lemma RecordLeTotal(x: Record, y: Record)
    ensures RecordLe(x, y) || RecordLe(y, x)
  {
    StrLeTotal(x.name, y.name);
  }

  lemma RecordLeReflexive(x: Record)
    ensures RecordLe(x, x)
  {
    StrLeReflexive(x.name);
  }

  lemma RecordLeAntisymmetric(x: Record, y: Record)
    requires RecordLe(x, y) && RecordLe(y, x)
    ensures x == y
  {
    StrLeAntisymmetric(x.name, y.name);
  }

  lemma RecordLeTransitive(x: Record, y: Record, z: Record)
    requires RecordLe(x, y) && RecordLe(y, z)
    ensures RecordLe(x, z)
  {
    if x.start == y.start == z.start && x.end == y.end == z.end && x.count == y.count == z.count && x.bit == y.bit == z.bit {
      StrLeTransitive(x.name, y.name, z.name);
    }
  }

  predicate Sorted(s: seq<Record>)
  {
    forall i, j :: 0 <= i < j < |s| ==> RecordLe(s[i], s[j])
  }

  // ----- `sorted(records)` ----------------------------------------------------------

  function Insert(x: Record, s: seq<Record>): (r: seq<Record>)
    ensures multiset(r) == multiset(s) + multiset{x}
    decreases |s|
  {
    if |s| == 0 then [x]
    else if RecordLe(x, s[0]) then [x] + s
    else
      assert s == [s[0]] + s[1..];
      [s[0]] + Insert(x, s[1..])
  }

  lemma {:induction false} InsertSorted(x: Record, s: seq<Record>)
    requires Sorted(s)
    ensures Sorted(Insert(x, s))
    decreases |s|
  {
    if |s| > 0 {
      var r := Insert(x, s);
      if RecordLe(x, s[0]) {
        forall j | 1 <= j < |r| ensures RecordLe(r[0], r[j]) {
          if j > 1 {
            RecordLeTransitive(x, s[0], s[j - 1]);
          }
        }
      } else {
        RecordLeTotal(x, s[0]);
        InsertSorted(x, s[1..]);
        var t := Insert(x, s[1..]);
        assert r == [s[0]] + t;
        forall j | 0 <= j < |t| ensures RecordLe(s[0], t[j]) {
          assert t[j] in multiset(t);
          if t[j] != x {
            assert t[j] in multiset(s[1..]);
            var k :| 0 <= k < |s[1..]| && s[1..][k] == t[j];
            assert s[k + 1] == t[j];
          }
        }
      }
    }
  }

  /** `sorted(records)`: the records in ascending tuple order. */
  function SortRecords(s: seq<Record>): (r: seq<Record>)
    ensures Sorted(r)
    ensures multiset(r) == multiset(s)
    decreases |s|
  {
    if |s| == 0 then []
    else
      var rest := SortRecords(s[1..]);
      InsertSorted(s[0], rest);
      InsertKeepsRecords(s, rest);
      Insert(s[0], rest)
  }

  lemma InsertKeepsRecords(s: seq<Record>, rest: seq<Record>)
    requires |s| > 0 && multiset(rest) == multiset(s[1..])
    ensures multiset(Insert(s[0], rest)) == multiset(s)
  {
    assert s == [s[0]] + s[1..];
  }

  /** A total order has one sorted arrangement of a multiset, so `sorted` (stable or
      not) is the same as any other sort of the same records. */
  lemma {:induction false} SortedUnique(a: seq<Record>, b: seq<Record>)
    requires Sorted(a) && Sorted(b) && multiset(a) == multiset(b)
    ensures a == b
    decreases |a|
  {
    if |a| > 0 {
      assert a[0] in multiset(b);
      assert b[0] in multiset(a);
      var i :| 0 <= i < |b| && b[i] == a[0];
      var j :| 0 <= j < |a| && a[j] == b[0];
      assert RecordLe(b[0], a[0]) by {
        if i > 0 { assert RecordLe(b[0], b[i]); } else { RecordLeReflexive(a[0]); }
      }
      assert RecordLe(a[0], b[0]) by {
        if j > 0 { assert RecordLe(a[0], a[j]); } else { RecordLeReflexive(a[0]); }
      }
      RecordLeAntisymmetric(a[0], b[0]);
      MultisetTail(a);
      MultisetTail(b);
      SortedUnique(a[1..], b[1..]);
    } else {
      assert |multiset(b)| == 0;
    }
  }

  lemma MultisetTail(a: seq<Record>)
    requires |a| > 0
    ensures multiset(a[1..]) == multiset(a) - multiset{a[0]}
  {
    assert a == [a[0]] + a[1..];
  }

  /** The emitted table is in ascending order of first code point, as its header
      announces. */
  lemma SortedByStart(s: seq<Record>)
    requires Sorted(s)
    ensures forall i, j :: 0 <= i < j < |s| ==> s[i].start <= s[j].start
  {
    forall i, j | 0 <= i < j < |s| ensures s[i].start <= s[j].start {
      assert RecordLe(s[i], s[j]);
    }
  }

  // ----- One line per record --------------------------------------------------------

  /** `0x` and the upper-case hexadecimal numeral of `n`, zero-padded to four digits. */
  function HexField(n: nat): string
  {
    "0x" + PaddedHex(n, 4)
  }

  /** The name between double quotes. */
  function Quoted(name: string): string
  {
    "\"" + name + "\""
  }

  /** One table row: four spaces and a brace, then comma-separated fields: the start and
      end fields right-aligned in 8 columns, the count right-aligned in 5, a zero, the bit
      number right-aligned in 3, another zero, and the quoted name left-aligned in 41;
      then a closing brace and a comma. */
  function FormatRow(r: Record): string
  {
    "    { " + PadLeft(HexField(r.start), 8, ' ') + ", " + PadLeft(HexField(r.end), 8, ' ') + ", "
      + PadLeft(FormatDecimal(r.count), 5, ' ') + ", " + "0" + ", " + PadLeft(FormatDecimal(r.bit), 3, ' ')
      + ", " + "0" + ", " + PadRight(Quoted(r.name), 41, ' ') + " },"
  }

  /** Reads a `0x`-prefixed hexadecimal field. */
  function ParseHexField(s: string): Option<nat>
  {
    if |s| >= 2 && s[..2] == "0x" then ParseHex(s[2..]) else None
  }

  /** Reads a double-quoted field. */
  function Unquote(s: string): Option<string>
  {
    if |s| >= 2 && s[0] == '"' && s[|s| - 1] == '"' then Some(s[1..|s| - 1]) else None
  }

  /** A reader for the emitted lines: the seven comma-separated fields between `    { `
      and ` },`, with the padding trimmed. It is the inverse the format is proved against. */
  function ParseRow(line: string): Option<Record>
  {
    if |line| < 9 || line[..6] != "    { " || line[|line| - 3..] != " }," then None
    else ParseFields(Split(line[6..|line| - 3], ','))
  }

  /** The seven fields of a line, each with its padding trimmed. */
  function ParseFields(f: seq<string>): Option<Record>
  {
    if |f| != 7 then None
    else ParseValues(Trim(f[0]), Trim(f[1]), Trim(f[2]), Trim(f[3]), Trim(f[4]), Trim(f[5]), Trim(f[6]))
  }

  /** The seven trimmed fields: start, end, count, a zero, bit, a zero, quoted name. */
  function ParseValues(start: string, end: string, count: string, zero1: string, bit: string,
                       zero2: string, name: string): Option<Record>
  {
    if zero1 != "0" || zero2 != "0" then None
    else
      match (ParseHexField(start), ParseHexField(end), ParseDecimal(count), ParseDecimal(bit), Unquote(name))
      case (Some(s), Some(e), Some(c), Some(b), Some(n)) => Some(Record(s, e, c, b, n))
      case _ => None
  }

  /** A text that padding does not eat into: it begins and ends with something other than
      a space, and has no comma to split at. */
  predicate Solid(x: string)
  {
    |x| > 0 && x[0] != ' ' && x[|x| - 1] != ' ' && ',' !in x
  }

  lemma HexFieldParses(n: nat)
    ensures ParseHexField(HexField(n)) == Some(n)
  {
    PaddedHexShape(n, 4);
    assert HexField(n)[2..] == PaddedHex(n, 4);
  }

  lemma HexFieldSolid(n: nat)
    ensures Solid(HexField(n))
  {
    PaddedHexShape(n, 4);
    var h := HexField(n);
    assert h[2..] == PaddedHex(n, 4);
    assert ',' !in h by {
      forall i | 0 <= i < |h| ensures h[i] != ',' {
        if i >= 2 {
          assert h[i] == PaddedHex(n, 4)[i - 2];
        }
      }
    }
  }

  lemma DecimalSolid(n: nat)
    ensures Solid(FormatDecimal(n))
  {
    FormatDigitsShape(n, 10);
    var d := FormatDecimal(n);
    assert IsDigitOf(d[0], 10) && IsDigitOf(d[|d| - 1], 10);
    assert ',' !in d by {
      forall i | 0 <= i < |d| ensures d[i] != ',' {
        assert IsDigitOf(d[i], 10);
      }
    }
  }

  lemma QuotedSolid(name: string)
    requires ',' !in name
    ensures Solid(Quoted(name)) && Unquote(Quoted(name)) == Some(name)
  {
    var q := Quoted(name);
    assert q[1..|q| - 1] == name;
    assert ',' !in q by {
      forall i | 0 <= i < |q| ensures q[i] != ',' {
        if 0 < i < |q| - 1 {
          assert q[i] == name[i - 1];
        }
      }
    }
  }

  /** A right-justified field, after `lead` spaces, trims back to its text. */
  lemma LeftPadded(x: string, width: nat, lead: nat)
    requires Solid(x)
    ensures Trim(Repeat(' ', lead) + PadLeft(x, width, ' ')) == x
    ensures ',' !in Repeat(' ', lead) + PadLeft(x, width, ' ')
  {
    PadLeftFill(x, width, ' ');
    SpacedField(x, |PadLeft(x, width, ' ')| - |x|, lead);
  }

  lemma SpacedField(x: string, k: nat, lead: nat)
    requires Solid(x)
    ensures Trim(Repeat(' ', lead) + (Repeat(' ', k) + x)) == x
    ensures ',' !in Repeat(' ', lead) + (Repeat(' ', k) + x)
  {
    SpacesBefore(lead, k, x);
    var s := Repeat(' ', lead) + (Repeat(' ', k) + x);
    assert s == Repeat(' ', lead + k) + x;
    TrimLeftPadded(lead + k, x);
  }

  lemma SpacesBefore(a: nat, b: nat, x: string)
    requires ',' !in x
    ensures Repeat(' ', a) + (Repeat(' ', b) + x) == Repeat(' ', a + b) + x
    ensures ',' !in Repeat(' ', a) + (Repeat(' ', b) + x)
  {
    var s := Repeat(' ', a) + (Repeat(' ', b) + x);
    forall i | 0 <= i < |s| ensures s[i] != ',' {
      if i >= a + b {
        assert s[i] == x[i - a - b];
      }
    }
  }

  /** A left-justified field, after one space, trims back to its text. */
  lemma RightPadded(x: string, width: nat)
    requires Solid(x)
    ensures Trim(" " + PadRight(x, width, ' ')) == x
    ensures ',' !in " " + PadRight(x, width, ' ')
  {
    PadRightSpaces(x, width);
    var k := |PadRight(x, width, ' ')| - |x|;
    SpacesAround(x, k);
    TrimPadded(1, x, k);
  }

  lemma SpacesAround(x: string, b: nat)
    requires ',' !in x
    ensures " " + (x + Repeat(' ', b)) == Repeat(' ', 1) + x + Repeat(' ', b)
    ensures ',' !in " " + (x + Repeat(' ', b))
  {
    var s := " " + (x + Repeat(' ', b));
    forall i | 0 <= i < |s| ensures s[i] != ',' {
      if 1 <= i <= |x| {
        assert s[i] == x[i - 1];
      }
    }
  }

  /** The seven fields of a line, as they sit between the commas. */
  function RowFields(r: Record): seq<string>
  {
    Columns(HexField(r.start), HexField(r.end), FormatDecimal(r.count), FormatDecimal(r.bit), Quoted(r.name))
  }

  /** The seven fields for the given texts of the five values. */
  function Columns(a: string, b: string, c: string, d: string, e: string): seq<string>
  {
    [PadLeft(a, 8, ' '), " " + PadLeft(b, 8, ' '), " " + PadLeft(c, 5, ' '), " 0",
     " " + PadLeft(d, 3, ' '), " 0", " " + PadRight(e, 41, ' ')]
  }

  /** The format string's layout, for any field texts: the fields joined at commas,
      between the opening and the closing brace. */
  lemma RowLayout(a: string, b: string, c: string, d: string, e: string)
    ensures "    { " + a + ", " + b + ", " + c + ", " + "0" + ", " + d + ", " + "0" + ", " + e + " },"
      == "    { " + Join([a, " " + b, " " + c, " 0", " " + d, " 0", " " + e], ',') + " },"
  {
    var open := "    { ";
    assert " " + "0" == " 0";
    var p1 := [a];
    assert open + a == open + Join(p1, ',');
    var l2 := open + a + ", " + b;
    LayoutStep(open + a, p1, b);
    var p2 := p1 + [" " + b];
    LayoutStep(l2, p2, c);
    var l3 := l2 + ", " + c;
    var p3 := p2 + [" " + c];
    LayoutStep(l3, p3, "0");
    var l4 := l3 + ", " + "0";
    var p4 := p3 + [" 0"];
    LayoutStep(l4, p4, d);
    var l5 := l4 + ", " + d;
    var p5 := p4 + [" " + d];
    LayoutStep(l5, p5, "0");
    var l6 := l5 + ", " + "0";
    var p6 := p5 + [" 0"];
    LayoutStep(l6, p6, e);
    assert p6 + [" " + e] == [a, " " + b, " " + c, " 0", " " + d, " 0", " " + e];
  }

  /** One more field after a comma and a space. */
  lemma LayoutStep(line: string, pieces: seq<string>, x: string)
    requires |pieces| >= 1 && line == "    { " + Join(pieces, ',')
    ensures line + ", " + x == "    { " + Join(pieces + [" " + x], ',')
  {
    JoinSnoc(pieces, " " + x, ',');
    CommaSpace("    { ", Join(pieces, ','), x);
  }

  lemma CommaSpace(open: string, joined: string, x: string)
    ensures open + joined + ", " + x == open + (joined + [','] + (" " + x))
  {
    assert ", " + x == [','] + (" " + x);
  }

  /** The frame around the fields comes off again. */
  lemma RowFrame(mid: string)
    ensures var line := "    { " + mid + " },";
      |line| >= 9 && line[..6] == "    { " && line[|line| - 3..] == " }," && line[6..|line| - 3] == mid
  {
  }

  /** Every emitted line reads back as its record, provided the name has no comma. */
  lemma FormatRowRoundTrip(r: Record)
    requires ',' !in r.name
    ensures ParseRow(FormatRow(r)) == Some(r)
  {
    FieldsRoundTrip(r);
    RowLayout(PadLeft(HexField(r.start), 8, ' '), PadLeft(HexField(r.end), 8, ' '),
      PadLeft(FormatDecimal(r.count), 5, ' '), PadLeft(FormatDecimal(r.bit), 3, ' '),
      PadRight(Quoted(r.name), 41, ' '));
    FrameRoundTrip(RowFields(r));
  }

  /** The frame and the commas come off again. */
  lemma FrameRoundTrip(f: seq<string>)
    requires |f| >= 1 && forall k :: 0 <= k < |f| ==> ',' !in f[k]
    ensures ParseRow("    { " + Join(f, ',') + " },") == ParseFields(f)
  {
    JoinSplit(f, ',');
    RowFrame(Join(f, ','));
  }

  /** Each field, trimmed, reads back as the value it was formatted from. */
  lemma FieldsRoundTrip(r: Record)
    requires ',' !in r.name
    ensures forall k :: 0 <= k < |RowFields(r)| ==> ',' !in RowFields(r)[k]
    ensures ParseFields(RowFields(r)) == Some(r)
  {
    var a, b, c, d, e := HexField(r.start), HexField(r.end), FormatDecimal(r.count), FormatDecimal(r.bit), Quoted(r.name);
    HexFieldSolid(r.start);
    HexFieldSolid(r.end);
    DecimalSolid(r.count);
    DecimalSolid(r.bit);
    QuotedSolid(r.name);
    ColumnTrims(a, b, c, d, e);
    NoCommas(RowFields(r));
    ParseTrimmedFields(RowFields(r), r);
  }

  /** Every column trims back to its text and holds no comma (one column per lemma keeps
      each proof small). */
  lemma ColumnTrims(a: string, b: string, c: string, d: string, e: string)
    requires Solid(a) && Solid(b) && Solid(c) && Solid(d) && Solid(e)
    ensures var f := Columns(a, b, c, d, e);
      && Trim(f[0]) == a && ',' !in f[0]
      && Trim(f[1]) == b && ',' !in f[1]
      && Trim(f[2]) == c && ',' !in f[2]
      && Trim(f[3]) == "0" && ',' !in f[3]
      && Trim(f[4]) == d && ',' !in f[4]
      && Trim(f[5]) == "0" && ',' !in f[5]
      && Trim(f[6]) == e && ',' !in f[6]
  {
    StartColumn(a, b, c, d, e);
    EndColumn(a, b, c, d, e);
    CountColumn(a, b, c, d, e);
    BitColumn(a, b, c, d, e);
    NameColumn(a, b, c, d, e);
    ZeroColumns(a, b, c, d, e);
  }

  lemma StartColumn(a: string, b: string, c: string, d: string, e: string)
    requires Solid(a)
    ensures Trim(Columns(a, b, c, d, e)[0]) == a && ',' !in Columns(a, b, c, d, e)[0]
  {
    FirstField(a, 8);
  }

  lemma EndColumn(a: string, b: string, c: string, d: string, e: string)
    requires Solid(b)
    ensures Trim(Columns(a, b, c, d, e)[1]) == b && ',' !in Columns(a, b, c, d, e)[1]
  {
    LaterField(b, 8);
  }

  lemma CountColumn(a: string, b: string, c: string, d: string, e: string)
    requires Solid(c)
    ensures Trim(Columns(a, b, c, d, e)[2]) == c && ',' !in Columns(a, b, c, d, e)[2]
  {
    LaterField(c, 5);
  }

  lemma BitColumn(a: string, b: string, c: string, d: string, e: string)
    requires Solid(d)
    ensures Trim(Columns(a, b, c, d, e)[4]) == d && ',' !in Columns(a, b, c, d, e)[4]
  {
    LaterField(d, 3);
  }

  lemma NameColumn(a: string, b: string, c: string, d: string, e: string)
    requires Solid(e)
    ensures Trim(Columns(a, b, c, d, e)[6]) == e && ',' !in Columns(a, b, c, d, e)[6]
  {
    RightPadded(e, 41);
  }

  lemma ZeroColumns(a: string, b: string, c: string, d: string, e: string)
    ensures Trim(Columns(a, b, c, d, e)[3]) == "0" && ',' !in Columns(a, b, c, d, e)[3]
    ensures Trim(Columns(a, b, c, d, e)[5]) == "0" && ',' !in Columns(a, b, c, d, e)[5]
  {
    ZeroField();
  }

  lemma NoCommas(f: seq<string>)
    requires |f| == 7
    requires ',' !in f[0] && ',' !in f[1] && ',' !in f[2] && ',' !in f[3]
    requires ',' !in f[4] && ',' !in f[5] && ',' !in f[6]
    ensures forall k :: 0 <= k < |f| ==> ',' !in f[k]
  {
    forall k | 0 <= k < |f| ensures ',' !in f[k] {
      if k < 4 {
        assert k == 0 || k == 1 || k == 2 || k == 3;
      } else {
        assert k == 4 || k == 5 || k == 6;
      }
    }
  }

  lemma FirstField(a: string, width: nat)
    requires Solid(a)
    ensures Trim(PadLeft(a, width, ' ')) == a && ',' !in PadLeft(a, width, ' ')
  {
    LeftPadded(a, width, 0);
    assert Repeat(' ', 0) + PadLeft(a, width, ' ') == PadLeft(a, width, ' ');
  }

  lemma LaterField(b: string, width: nat)
    requires Solid(b)
    ensures Trim(" " + PadLeft(b, width, ' ')) == b && ',' !in " " + PadLeft(b, width, ' ')
  {
    LeftPadded(b, width, 1);
    assert Repeat(' ', 1) == " ";
  }

  lemma ZeroField()
    ensures Trim(" 0") == "0" && ',' !in " 0"
  {
    TrimLeftPadded(1, "0");
    assert Repeat(' ', 1) + "0" == " 0";
  }

  lemma ParseTrimmedFields(f: seq<string>, r: Record)
    requires ',' !in r.name
    requires |f| == 7
    requires Trim(f[0]) == HexField(r.start) && Trim(f[1]) == HexField(r.end)
    requires Trim(f[2]) == FormatDecimal(r.count) && Trim(f[3]) == "0"
    requires Trim(f[4]) == FormatDecimal(r.bit) && Trim(f[5]) == "0"
    requires Trim(f[6]) == Quoted(r.name)
    ensures ParseFields(f) == Some(r)
  {
    ParseValuesRoundTrip(r);
  }

  lemma ParseValuesRoundTrip(r: Record)
    requires ',' !in r.name
    ensures ParseValues(HexField(r.start), HexField(r.end), FormatDecimal(r.count), "0",
      FormatDecimal(r.bit), "0", Quoted(r.name)) == Some(r)
  {
    HexFieldParses(r.start);
    HexFieldParses(r.end);
    FormatParseRoundTrip(r.count, 10);
    FormatParseRoundTrip(r.bit, 10);
    QuotedSolid(r.name);
  }

  /** With the values that occur in the OS/2 bit list (code points below 0x1000000, counts
      below 100000, bits below 1000, names of at most 39 characters) every line has the
      same width, so the columns line up. */
  lemma FormatRowWidth(r: Record)
    requires r.start < 0x100_0000 && r.end < 0x100_0000
    requires r.count < 100000 && r.bit < 1000 && |r.name| <= 39
    ensures |FormatRow(r)| == 88
  {
    HexWidth(r.start);
    HexWidth(r.end);
    FormatDigitsLength(r.count, 10, 5);
    FormatDigitsLength(r.bit, 10, 3);
    assert Pow(10, 5) == 100000 && Pow(10, 3) == 1000;
  }

  lemma HexWidth(n: nat)
    requires n < 0x100_0000
    ensures |HexField(n)| <= 8
  {
    FormatDigitsLength(n, 16, 6);
    assert Pow(16, 6) == 0x100_0000;
  }

  // ----- The table ------------------------------------------------------------------

  /** `_print_header`: the header comment, line by line (`print` ends it with one more
      newline). The lines are kept in the constant below: a function whose body is the
      literal itself would have the verifier unfold that literal in every proof that
      mentions the header. */
  function Header(): seq<string>
  {
    HeaderLines
  }

  const HeaderLines: seq<string> := [
    "/*",
    "   Copyright 2014 Adobe",
    "   All Rights Reserved.",
    "   This software is licensed as OpenSource, under the Apache License, Version 2.0.",
    "   This license is available at: http://opensource.org/licenses/Apache-2.0.",
    "*/",
    "",
    "/*",
    "   DO NOT EDIT: this file was generated by the Python script generate_uniblock.py.",
    "   ( c/makeotf/makeotf_lib/utils/generate_uniblock.py )",
    "",
    "   Unicode block information (struct type: UnicodeBlock). Ordered by first",
    "   Unicode value in range. Ranges do not overlap. Bit 57 \"Non-Plane 0\" is ",
    "   handled separately in map.c (search on SUPP_UV_BITNUM).",
    "*/",
    ""
  ]

  /** `f` applied to each record, in order. */
  function MapRecords(s: seq<Record>, f: Record -> string): (lines: seq<string>)
    ensures |lines| == |s|
    ensures forall i :: 0 <= i < |s| ==> lines[i] == f(s[i])
    decreases |s|
  {
    if |s| == 0 then [] else MapRecords(s[..|s| - 1], f) + [f(s[|s| - 1])]
  }

  /** The lines `_print_records` writes. */
  function TableLines(records: seq<Record>): seq<string>
  {
    MapRecords(SortRecords(records), FormatRow)
  }

  /** `_print_records`: one formatted line per record, in sorted order. */
  method PrintRecords(records: seq<Record>) returns (lines: seq<string>)
    ensures lines == TableLines(records)
  {
    var sorted := SortRecords(records);
    lines := [];
    for i := 0 to |sorted|
      invariant lines == MapRecords(sorted[..i], FormatRow)
    {
      MapRecordsStep(sorted, i, FormatRow);
      lines := lines + [FormatRow(sorted[i])];
    }
    assert sorted[..|sorted|] == sorted;
  }

  lemma MapRecordsStep(s: seq<Record>, i: nat, f: Record -> string)
    requires i < |s|
    ensures MapRecords(s[..i + 1], f) == MapRecords(s[..i], f) + [f(s[i])]
  {
    assert s[..i + 1][..i] == s[..i];
  }

  /** The table has one line per record, listing a permutation of the input in ascending
      order of start; each line whose name has no comma reads back as its record. */
  lemma TableListsRecords(records: seq<Record>)
    ensures |TableLines(records)| == |records|
    ensures multiset(SortRecords(records)) == multiset(records)
    ensures forall i :: 0 <= i < |records| && ',' !in SortRecords(records)[i].name ==>
      ParseRow(TableLines(records)[i]) == Some(SortRecords(records)[i])
    ensures forall i, j :: 0 <= i < j < |records| ==> SortRecords(records)[i].start <= SortRecords(records)[j].start
  {
    var sorted := SortRecords(records);
    assert |sorted| == |multiset(sorted)| == |multiset(records)| == |records|;
    forall i | 0 <= i < |records| && ',' !in sorted[i].name ensures ParseRow(TableLines(records)[i]) == Some(sorted[i]) {
      FormatRowRoundTrip(sorted[i]);
    }
    SortedByStart(sorted);
  }
}
