/** The OS/2 range record builder (`_get_os2_ur_records`): one record per block of the
    OpenType OS/2 table's ulUnicodeRange bit list, annotated with the number of assigned
    code points it holds. */
module Os2Ranges {
  import opened Wrappers
  import opened Text
  import opened Numerals
  import opened NameRepair
  import opened CodePoints

  /** Bits whose ulUnicodeRange flag should be set as soon as the font has any character
      of the block (private-use and CJK blocks, too large or too variable for a count to
      mean anything): their records carry the count 1. */
  const FlagOnAnyCharBits: set<nat> := {28, 48, 52, 54, 55, 56, 59, 60, 61, 65, 90}

  /** Bit 57, "Non-Plane 0", is computed elsewhere in the consumer and never emitted. */
  const NonPlane0Bit: nat := 57

  /** The first field of the reserved row at the end of the bit list. */
  const ReservedField: string := "123-127"

  /** One block descriptor: its range, the number of assigned code points in it, its bit
      number and its name. */
  datatype Record = Record(start: nat, end: nat, count: nat, bit: nat, name: string)

  /** The bit-number field of a row: the row's own first field, or, for a continuation
      row, the previous bit number put in front of the row as an integer. */
  datatype BitField = Written(text: string) | Inherited(number: nat)

  /** The bit number of a row as a number: an inherited one already is, a written one is
      read as decimal. */
  function BitValue(field: BitField): Option<nat>
  {
    match field
    case Inherited(n) => Some(n)
    case Written(s) => ParseDecimal(s)
  }

  /** The range field split at each '-', each piece read as hexadecimal and the values
      unpacked into a start and an end: the values are read left to right, and a missing
      or extra piece is found when unpacking reaches it.
      Checking for an extra piece draws a third value from the generator, so a third piece
      that is not hexadecimal fails as such before the count is found wrong. */
  function ParseRange(startEnd: string): Result<(nat, nat), Reason>
  {
    var pieces := Split(startEnd, '-');
    match ParseHex(pieces[0])
    case None => Err(BadHex)
    case Some(start) =>
      if |pieces| < 2 then Err(WrongFieldCount)
      else
        match ParseHex(pieces[1])
        case None => Err(BadHex)
        case Some(end) =>
          if |pieces| == 2 then Ok((start, end))
          else if ParseHex(pieces[2]).None? then Err(BadHex)
          else Err(WrongFieldCount)
  }

  /** A range written as two zero-padded hexadecimal numerals joined by '-' reads back as
      its two ends. */
  lemma ParseRangeRoundTrip(start: nat, end: nat)
    ensures ParseRange(PaddedHex(start, 4) + "-" + PaddedHex(end, 4)) == Ok((start, end))
  {
    var a, b := PaddedHex(start, 4), PaddedHex(end, 4);
    PaddedHexShape(start, 4);
    PaddedHexShape(end, 4);
    assert '-' !in a by {
      forall i | 0 <= i < |a| ensures a[i] != '-' { }
    }
    assert '-' !in b by {
      forall i | 0 <= i < |b| ensures b[i] != '-' { }
    }
    SplitPair(a, b, '-');
  }

  /** The bit number a row resolves to, when it has one. */
  function ResolvedBit(row: seq<string>, prev: nat): Option<nat>
    requires |row| > 0 && |row[0]| > 0
  {
    if IsDigit(row[0][0]) then ParseDecimal(row[0]) else Some(prev)
  }

  /** A continuation row: its first field does not start with a digit. */
  predicate IsContinuation(row: seq<string>)
  {
    |row| > 0 && |row[0]| > 0 && !IsDigit(row[0][0])
  }

  /** The reserved row. */
  predicate IsReserved(row: seq<string>)
  {
    |row| > 0 && row[0] == ReservedField
  }

  /** One row of the bit list, given the previous bit number: a failure, nothing (the
      reserved row and bit 57 are skipped), or the record it appends. */
  function Os2Row(unichars: set<nat>, row: seq<string>, prev: nat): Result<Option<Record>, Reason>
  {
    if |row| == 0 || |row[0]| == 0 then Err(MissingField)
    else
      var bitField := if IsDigit(row[0][0]) then Written(row[0]) else Inherited(prev);
      var fields := if IsDigit(row[0][0]) then row[1..] else row;
      if bitField == Written(ReservedField) then Ok(None)
      else if |fields| != 3 then Err(WrongFieldCount)
      else
        match BitValue(bitField)
        case None => Err(BadDecimal)
        case Some(bit) =>
          match ParseRange(fields[1])
          case Err(reason) => Err(reason)
          case Ok(range) =>
            if bit == NonPlane0Bit then Ok(None)
            else
              var count := if bit in FlagOnAnyCharBits then 1 else CountInRange(unichars, range.0, range.1);
              Ok(Some(Record(range.0, range.1, count, bit, FixTitleCasing(fields[0]))))
  }

  /** The builder's two variables: the records appended so far and `prev_os2_num`. */
  datatype Os2State = Os2State(records: seq<Record>, prev: nat)

  /** The builder over the rows, in file order. */
  function Os2Scan(unichars: set<nat>, rows: seq<seq<string>>): Result<Os2State, Failure>
    decreases |rows|
  {
    if |rows| == 0 then Ok(Os2State([], 0))
    else
      var k := |rows| - 1;
      match Os2Scan(unichars, rows[..k])
      case Err(f) => Err(f)
      case Ok(st) =>
        match Os2Row(unichars, rows[k], st.prev)
        case Err(reason) => Err(Failure(Os2UnicodeRanges, k, reason))
        case Ok(None) => Ok(st)
        case Ok(Some(rec)) => Ok(Os2State(st.records + [rec], rec.bit))
  }

  /** The loop of `_get_os2_ur_records` over rows already split at tabs. */
  method BuildOs2Records(unichars: set<nat>, rows: seq<seq<string>>) returns (r: Result<seq<Record>, Failure>)
    ensures Os2Scan(unichars, rows).Ok? ==> r == Ok(Os2Scan(unichars, rows).value.records)
    ensures Os2Scan(unichars, rows).Err? ==> r == Err(Os2Scan(unichars, rows).error)
  {
    var records: seq<Record> := [];
    var prevOs2Num: nat := 0;
    for i := 0 to |rows|
      invariant Os2Scan(unichars, rows[..i]) == Ok(Os2State(records, prevOs2Num))
    {
      assert rows[..i + 1][..i] == rows[..i];
      var row := rows[i];
      if |row| == 0 || |row[0]| == 0 {
        r := Err(Failure(Os2UnicodeRanges, i, MissingField));
        Os2ErrorPersists(unichars, rows, i + 1);
        return;
      }
      var bitField := Written(row[0]);
      var fields := row[1..];
      if !IsDigit(row[0][0]) {
        // A row without a bit number takes the bit of the last record appended, or 0.
        bitField := Inherited(prevOs2Num);
        fields := row;
      }
      if bitField != Written(ReservedField) {
        if |fields| != 3 {
          r := Err(Failure(Os2UnicodeRanges, i, WrongFieldCount));
          Os2ErrorPersists(unichars, rows, i + 1);
          return;
        }
        var os2Num: nat;
        if bitField.Inherited? {
          os2Num := bitField.number;
        } else {
          var parsed := ParseDecimal(bitField.text);
          if parsed.None? {
            r := Err(Failure(Os2UnicodeRanges, i, BadDecimal));
            Os2ErrorPersists(unichars, rows, i + 1);
            return;
          }
          os2Num := parsed.value;
        }
        var name := fields[0];
        var range := ParseRange(fields[1]);
        if range.Err? {
          r := Err(Failure(Os2UnicodeRanges, i, range.error));
          Os2ErrorPersists(unichars, rows, i + 1);
          return;
        }
        var (start, end) := range.value;
        if os2Num != NonPlane0Bit {
          var count: nat;
          if os2Num in FlagOnAnyCharBits {
            count := 1;
          } else {
            count := CountCharsInRange(unichars, start, end);
          }
          name := FixTitleCasing(name);
          records := records + [Record(start, end, count, os2Num, name)];
          prevOs2Num := os2Num;
        }
      }
    }
    assert rows[..|rows|] == rows;
    r := Ok(records);
  }

  /** Once a prefix fails, the whole list fails with the same failure. */
  lemma {:induction false} Os2ErrorPersists(unichars: set<nat>, rows: seq<seq<string>>, n: nat)
    requires n <= |rows| && Os2Scan(unichars, rows[..n]).Err?
    ensures Os2Scan(unichars, rows) == Os2Scan(unichars, rows[..n])
    decreases |rows|
  {
    if n < |rows| {
      var k := |rows| - 1;
      assert rows[..k][..n] == rows[..n];
      Os2ErrorPersists(unichars, rows[..k], n);
    } else {
      assert rows[..n] == rows;
    }
  }

  /** The records of `_get_os2_ur_records`: the code points are loaded first, so a bad
      UnicodeData.txt row ends the run before the bit list is read. */
  function UrRecords(unicodeRows: seq<seq<string>>, os2Rows: seq<seq<string>>): Result<seq<Record>, Failure>
  {
    match Load(unicodeRows)
    case Err(f) => Err(f)
    case Ok(loaded) =>
      match Os2Scan(loaded.chars, os2Rows)
      case Err(f) => Err(f)
      case Ok(st) => Ok(st.records)
  }

  /** `_get_os2_ur_records`. */
  method GetOs2UrRecords(unicodeRows: seq<seq<string>>, os2Rows: seq<seq<string>>) returns (r: Result<seq<Record>, Failure>)
    ensures r == UrRecords(unicodeRows, os2Rows)
  {
    var unichars := GetUnichars(unicodeRows);
    if unichars.Err? {
      return Err(unichars.error);
    }
    r := BuildOs2Records(unichars.value, os2Rows);
  }

  // ----- Properties of one row ------------------------------------------------------

  /** What one row yields. The reserved row yields nothing; a row yields nothing else only
      when it resolves to bit 57. A record never has bit 57; its count is 1 for the
      flag-on-any-character bits and the exact number of assigned code points in its range
      otherwise; its range is the row's third field read as two hexadecimal numbers, its
      name the row's second field repaired; and a continuation row's record has the
      previous bit number. */
  lemma Os2RowOutcome(unichars: set<nat>, row: seq<string>, prev: nat)
    ensures IsReserved(row) ==> Os2Row(unichars, row, prev) == Ok(None)
    ensures Os2Row(unichars, row, prev) == Ok(None) ==>
      IsReserved(row) || ResolvedBit(row, prev) == Some(NonPlane0Bit)
    ensures Os2Row(unichars, row, prev).Ok? && Os2Row(unichars, row, prev).value.Some? ==>
      var rec := Os2Row(unichars, row, prev).value.value;
      var fields := if IsContinuation(row) then row else row[1..];
      && !IsReserved(row)
      && rec.bit != NonPlane0Bit
      && (rec.bit in FlagOnAnyCharBits ==> rec.count == 1)
      && (rec.bit !in FlagOnAnyCharBits ==> rec.count == CountInRange(unichars, rec.start, rec.end))
      && ResolvedBit(row, prev) == Some(rec.bit)
      && (IsContinuation(row) ==> rec.bit == prev)
      && |fields| == 3
      && ParseRange(fields[1]) == Ok((rec.start, rec.end))
      && rec.name == FixTitleCasing(fields[0])
  {
  }

  // ----- Properties of the whole list -----------------------------------------------

  /** The rule every record obeys: never bit 57, and the count the bit calls for. */
  predicate RecordRule(unichars: set<nat>, rec: Record)
  {
    && rec.bit != NonPlane0Bit
    && (rec.bit in FlagOnAnyCharBits ==> rec.count == 1)
    && (rec.bit !in FlagOnAnyCharBits ==> rec.count == CountInRange(unichars, rec.start, rec.end))
  }

  /** The bit number of the last record, or 0 (the initial `prev_os2_num`) when there is none. */
  function LastBit(records: seq<Record>): nat
  {
    if |records| == 0 then 0 else records[|records| - 1].bit
  }

  /** Every record obeys the rule, and `prev_os2_num` is always the bit of the last record
      appended (skipped rows do not change it), so it is never 57. */
  lemma {:induction false} Os2ScanInvariant(unichars: set<nat>, rows: seq<seq<string>>)
    requires Os2Scan(unichars, rows).Ok?
    ensures forall i :: 0 <= i < |Os2Scan(unichars, rows).value.records| ==>
      RecordRule(unichars, Os2Scan(unichars, rows).value.records[i])
    ensures Os2Scan(unichars, rows).value.prev == LastBit(Os2Scan(unichars, rows).value.records)
    ensures Os2Scan(unichars, rows).value.prev != NonPlane0Bit
    decreases |rows|
  {
    if |rows| > 0 {
      var k := |rows| - 1;
      Os2ScanInvariant(unichars, rows[..k]);
      var st := Os2Scan(unichars, rows[..k]).value;
      if Os2Row(unichars, rows[k], st.prev).value.Some? {
        InvariantStep(unichars, st, rows[k]);
      }
    }
  }

  /** One row keeps the invariant of `Os2ScanInvariant`. */
  lemma InvariantStep(unichars: set<nat>, st: Os2State, row: seq<string>)
    requires forall i :: 0 <= i < |st.records| ==> RecordRule(unichars, st.records[i])
    requires st.prev == LastBit(st.records)
    requires Os2Row(unichars, row, st.prev).Ok? && Os2Row(unichars, row, st.prev).value.Some?
    ensures var rec := Os2Row(unichars, row, st.prev).value.value;
      && (forall i :: 0 <= i < |st.records + [rec]| ==> RecordRule(unichars, (st.records + [rec])[i]))
      && rec.bit == LastBit(st.records + [rec])
      && rec.bit != NonPlane0Bit
  {
    Os2RowOutcome(unichars, row, st.prev);
  }

  /** A failure names a row of the list, and the rows before it go through. */
  lemma {:induction false} Os2FailureRow(unichars: set<nat>, rows: seq<seq<string>>)
    requires Os2Scan(unichars, rows).Err?
    ensures Os2Scan(unichars, rows).error.file == Os2UnicodeRanges
    ensures Os2Scan(unichars, rows).error.row < |rows|
    ensures Os2Scan(unichars, rows[..Os2Scan(unichars, rows).error.row]).Ok?
    decreases |rows|
  {
    var k := |rows| - 1;
    if Os2Scan(unichars, rows[..k]).Err? {
      Os2FailureRow(unichars, rows[..k]);
      var n := Os2Scan(unichars, rows[..k]).error.row;
      assert rows[..k][..n] == rows[..n];
    }
  }

  /** The rows that yield no record: the reserved row, and a row that writes bit 57. */
  predicate SkippedRow(row: seq<string>)
  {
    || IsReserved(row)
    || (&& |row| == 4 && |row[0]| > 0 && IsDigit(row[0][0])
        && ParseDecimal(row[0]) == Some(NonPlane0Bit) && ParseRange(row[2]).Ok?)
  }

  /** A skipped row yields nothing whatever the previous bit was; and at any point the
      builder can reach, a row that yields nothing is a skipped row (a continuation row
      always produces a record, because the bit it inherits is never 57). */
  lemma SkippedRowsYieldNothing(unichars: set<nat>, rows: seq<seq<string>>, k: nat)
    requires k < |rows| && Os2Scan(unichars, rows[..k]).Ok?
    ensures forall prev :: SkippedRow(rows[k]) ==> Os2Row(unichars, rows[k], prev) == Ok(None)
    ensures Os2Row(unichars, rows[k], Os2Scan(unichars, rows[..k]).value.prev) == Ok(None) ==> SkippedRow(rows[k])
  {
    Os2ScanInvariant(unichars, rows[..k]);
    Os2RowOutcome(unichars, rows[k], Os2Scan(unichars, rows[..k]).value.prev);
  }

  /** Renumbers a failure at or after position `at` by one, as inserting a row there does. */
  function ShiftFailure(r: Result<Os2State, Failure>, at: nat): (shifted: Result<Os2State, Failure>)
    ensures r.Ok? <==> shifted.Ok?
    ensures r.Ok? ==> shifted == r
    ensures r.Err? ==> shifted.error.file == r.error.file && shifted.error.reason == r.error.reason
  {
    match r
    case Ok(st) => Ok(st)
    case Err(f) => Err(if f.row >= at then Failure(f.file, f.row + 1, f.reason) else f)
  }

  /** A skipped row anywhere in the list changes nothing: the same records, or the same
      failure, with later failures one row further down. */
  lemma {:induction false} SkippedRowIsInert(unichars: set<nat>, a: seq<seq<string>>, row: seq<string>, b: seq<seq<string>>)
    requires SkippedRow(row)
    ensures Os2Scan(unichars, a + [row] + b) == ShiftFailure(Os2Scan(unichars, a + b), |a|)
    decreases |b|
  {
    if |b| == 0 {
      assert a + [row] + b == a + [row];
      assert a + b == a;
      SkippedRowAtEnd(unichars, a, row);
    } else {
      var b', x := b[..|b| - 1], b[|b| - 1];
      assert a + [row] + b == (a + [row] + b') + [x];
      assert a + b == (a + b') + [x];
      SkippedRowIsInert(unichars, a, row, b');
      ShiftedScanStep(unichars, a + [row] + b', a + b', x, |a|);
    }
  }

  /** A skipped row appended at the end changes nothing. */
  lemma SkippedRowAtEnd(unichars: set<nat>, a: seq<seq<string>>, row: seq<string>)
    requires SkippedRow(row)
    ensures Os2Scan(unichars, a + [row]) == ShiftFailure(Os2Scan(unichars, a), |a|)
  {
    var s := a + [row];
    assert s[..|a|] == a;
    assert s[|a|] == row;
    if Os2Scan(unichars, a).Err? {
      Os2FailureRow(unichars, a);
    } else {
      Os2RowOutcome(unichars, row, Os2Scan(unichars, a).value.prev);
    }
  }

  /** Two lists whose scans agree up to the renumbering of failures from `at` on, one row
      longer than the other, still agree after the same row is appended to both. */
  lemma ShiftedScanStep(unichars: set<nat>, longer: seq<seq<string>>, shorter: seq<seq<string>>, x: seq<string>, at: nat)
    requires |longer| == |shorter| + 1 && at <= |shorter|
    requires Os2Scan(unichars, longer) == ShiftFailure(Os2Scan(unichars, shorter), at)
    ensures Os2Scan(unichars, longer + [x]) == ShiftFailure(Os2Scan(unichars, shorter + [x]), at)
  {
    assert (longer + [x])[..|longer|] == longer && (longer + [x])[|longer|] == x;
    assert (shorter + [x])[..|shorter|] == shorter && (shorter + [x])[|shorter|] == x;
  }

  /** A continuation row's record carries the bit of the record appended before it, or 0
      when it is the first. */
  lemma ContinuationInheritsBit(unichars: set<nat>, rows: seq<seq<string>>, k: nat)
    requires k < |rows| && IsContinuation(rows[k]) && Os2Scan(unichars, rows[..k]).Ok?
    requires Os2Row(unichars, rows[k], Os2Scan(unichars, rows[..k]).value.prev).Ok?
    ensures Os2Row(unichars, rows[k], Os2Scan(unichars, rows[..k]).value.prev).value.Some?
    ensures Os2Row(unichars, rows[k], Os2Scan(unichars, rows[..k]).value.prev).value.value.bit
      == LastBit(Os2Scan(unichars, rows[..k]).value.records)
  {
    Os2ScanInvariant(unichars, rows[..k]);
    Os2RowOutcome(unichars, rows[k], Os2Scan(unichars, rows[..k]).value.prev);
  }

  /** Row `k` appends a record when the builder reaches it. */
  ghost predicate Produces(unichars: set<nat>, rows: seq<seq<string>>, k: int)
  {
    && 0 <= k < |rows|
    && Os2Scan(unichars, rows[..k]).Ok?
    && Os2Scan(unichars, rows[..k + 1]).Ok?
    && |Os2Scan(unichars, rows[..k + 1]).value.records| > |Os2Scan(unichars, rows[..k]).value.records|
  }

  /** The record row `k` appends. */
  ghost function ProducedAt(unichars: set<nat>, rows: seq<seq<string>>, k: int): Record
    requires Produces(unichars, rows, k)
  {
    var records := Os2Scan(unichars, rows[..k + 1]).value.records;
    records[|records| - 1]
  }

  /** One row appends at most one record, and it is the record that row yields. */
  lemma ScanStep(unichars: set<nat>, rows: seq<seq<string>>)
    requires |rows| > 0 && Os2Scan(unichars, rows).Ok?
    ensures Os2Scan(unichars, rows[..|rows| - 1]).Ok?
    ensures var earlier := Os2Scan(unichars, rows[..|rows| - 1]).value;
      var records := Os2Scan(unichars, rows).value.records;
      var outcome := Os2Row(unichars, rows[|rows| - 1], earlier.prev);
      && outcome.Ok?
      && (outcome.value.None? ==> records == earlier.records)
      && (outcome.value.Some? ==> records == earlier.records + [outcome.value.value])
  {
  }

  /** What row `k` appends does not depend on the rows after it. */
  lemma ProducesPrefix(unichars: set<nat>, rows: seq<seq<string>>, n: nat, k: int)
    requires k < n <= |rows|
    ensures Produces(unichars, rows[..n], k) <==> Produces(unichars, rows, k)
    ensures Produces(unichars, rows, k) ==> ProducedAt(unichars, rows[..n], k) == ProducedAt(unichars, rows, k)
  {
    if 0 <= k {
      assert rows[..n][..k] == rows[..k];
      assert rows[..n][..k + 1] == rows[..k + 1];
    }
  }

  /** The records of a prefix of the list are a prefix of the records of the whole list:
      records are only ever appended. */
  lemma {:induction false} RecordsOnlyAppended(unichars: set<nat>, rows: seq<seq<string>>, k: nat)
    requires Os2Scan(unichars, rows).Ok? && k <= |rows|
    ensures Os2Scan(unichars, rows[..k]).Ok?
    ensures Os2Scan(unichars, rows[..k]).value.records <= Os2Scan(unichars, rows).value.records
    decreases |rows| - k
  {
    if k < |rows| {
      RecordsOnlyAppended(unichars, rows, k + 1);
      var q := rows[..k + 1];
      assert q[..k] == rows[..k];
      ScanStep(unichars, q);
    } else {
      assert rows[..k] == rows;
    }
  }

  /** A row that appends a record put it at the position given by the number of records
      the rows before it appended. */
  lemma RecordOfRow(unichars: set<nat>, rows: seq<seq<string>>, k: nat)
    requires Os2Scan(unichars, rows).Ok? && Produces(unichars, rows, k)
    ensures var n := |Os2Scan(unichars, rows[..k]).value.records|;
      && n < |Os2Scan(unichars, rows).value.records|
      && Os2Scan(unichars, rows).value.records[n] == ProducedAt(unichars, rows, k)
      && |Os2Scan(unichars, rows[..k + 1]).value.records| == n + 1
  {
    RecordsOnlyAppended(unichars, rows, k + 1);
    var q := rows[..k + 1];
    assert q[..k] == rows[..k];
    ScanGrows(unichars, q);
    var before, after := Os2Scan(unichars, rows[..k]).value.records, Os2Scan(unichars, q).value.records;
    AppendedOne(before, after, Os2Scan(unichars, rows).value.records);
  }

  /** Records are appended in row order: of two rows that append a record, the earlier
      one's record comes first. */
  lemma AppendedInRowOrder(unichars: set<nat>, rows: seq<seq<string>>, k: nat, k': nat)
    requires Produces(unichars, rows, k) && Produces(unichars, rows, k') && k < k'
    ensures |Os2Scan(unichars, rows[..k]).value.records| < |Os2Scan(unichars, rows[..k']).value.records|
  {
    var q := rows[..k'];
    RecordsOnlyAppended(unichars, q, k + 1);
    assert q[..k + 1] == rows[..k + 1];
  }

  /** One row keeps the records so far and appends at most one. */
  lemma ScanGrows(unichars: set<nat>, rows: seq<seq<string>>)
    requires |rows| > 0 && Os2Scan(unichars, rows).Ok?
    ensures Os2Scan(unichars, rows[..|rows| - 1]).Ok?
    ensures var before := Os2Scan(unichars, rows[..|rows| - 1]).value.records;
      before <= Os2Scan(unichars, rows).value.records &&
      |Os2Scan(unichars, rows).value.records| <= |before| + 1
  {
    ScanStep(unichars, rows);
  }

  lemma AppendedOne(before: seq<Record>, after: seq<Record>, all: seq<Record>)
    requires before <= after <= all && |before| < |after| <= |before| + 1
    ensures |before| < |all| && all[|before|] == after[|after| - 1] && |after| == |before| + 1
  {
  }

  /** The record a row appends is the one `Os2Row` yields for that row, given the previous
      bit the rows before it left. */
  lemma ProducedByRow(unichars: set<nat>, rows: seq<seq<string>>, k: int)
    requires Produces(unichars, rows, k)
    ensures Os2Row(unichars, rows[k], Os2Scan(unichars, rows[..k]).value.prev) == Ok(Some(ProducedAt(unichars, rows, k)))
  {
    var q := rows[..k + 1];
    ScanStep(unichars, q);
    assert q[..k] == rows[..k] && q[k] == rows[k];
  }

  /** Every record was appended by some row, which is found at that record's position and
      yields that record by `Os2Row`, so `Os2RowOutcome` describes every final record. */
  lemma {:induction false} RowOfRecord(unichars: set<nat>, rows: seq<seq<string>>, i: nat)
    requires Os2Scan(unichars, rows).Ok? && i < |Os2Scan(unichars, rows).value.records|
    ensures exists k ::
      && Produces(unichars, rows, k)
      && |Os2Scan(unichars, rows[..k]).value.records| == i
      && ProducedAt(unichars, rows, k) == Os2Scan(unichars, rows).value.records[i]
      && Os2Row(unichars, rows[k], Os2Scan(unichars, rows[..k]).value.prev) == Ok(Some(Os2Scan(unichars, rows).value.records[i]))
    decreases |rows|
  {
    var m := |rows| - 1;
    var p := rows[..m];
    ScanStep(unichars, rows);
    assert rows[..m + 1] == rows;
    if i < |Os2Scan(unichars, p).value.records| {
      RowOfRecord(unichars, p, i);
      var k :|
        && Produces(unichars, p, k)
        && |Os2Scan(unichars, p[..k]).value.records| == i
        && ProducedAt(unichars, p, k) == Os2Scan(unichars, p).value.records[i];
      ProducesPrefix(unichars, rows, m, k);
      assert p[..k] == rows[..k];
      ProducedByRow(unichars, rows, k);
    } else {
      assert Produces(unichars, rows, m);
      ProducedByRow(unichars, rows, m);
    }
  }
}
