/** `_main`: the header, then the table of OS/2 range records. A failure while reading
    either input ends the run after the header has been written. */
module Uniblock {
  import opened Wrappers
  import opened CodePoints
  import opened Os2Ranges
  import opened Emitter

  /** What a run writes, and the failure that ended it, if any. */
  datatype Outcome = Outcome(lines: seq<string>, failure: Option<Failure>)

  /** The run, from the rows of UnicodeData.txt and of os2_ur.txt. */
  function Run(unicodeRows: seq<seq<string>>, os2Rows: seq<seq<string>>): Outcome
  {
    match UrRecords(unicodeRows, os2Rows)
    case Err(f) => Outcome(Header(), Some(f))
    case Ok(records) => Outcome(Header() + TableLines(records), None)
  }

  /** `_main`. */
  method Generate(unicodeRows: seq<seq<string>>, os2Rows: seq<seq<string>>) returns (lines: seq<string>, failure: Option<Failure>)
    ensures Outcome(lines, failure) == Run(unicodeRows, os2Rows)
  {
    lines := Header();
    var records := GetOs2UrRecords(unicodeRows, os2Rows);
    if records.Err? {
      return lines, Some(records.error);
    }
    var table := PrintRecords(records.value);
    lines := lines + table;
    failure := None;
  }

  /** The records come from the loaded code points and the bit list. */
  lemma UrRecordsScan(unicodeRows: seq<seq<string>>, os2Rows: seq<seq<string>>)
    requires UrRecords(unicodeRows, os2Rows).Ok?
    ensures Load(unicodeRows).Ok? && Os2Scan(Load(unicodeRows).value.chars, os2Rows).Ok?
    ensures UrRecords(unicodeRows, os2Rows).value == Os2Scan(Load(unicodeRows).value.chars, os2Rows).value.records
  {
  }

  /** What a successful run writes: the header, then the table of the records, every one of
      which obeys the record rule (bit 57 never appears, a flag-on-any-character bit has
      count 1, every other count is the number of loaded code points in the range). The
      order of the table and how its lines read back are `TableListsRecords`. */
  lemma RunWritesTable(unicodeRows: seq<seq<string>>, os2Rows: seq<seq<string>>, records: seq<Record>)
    requires UrRecords(unicodeRows, os2Rows) == Ok(records)
    ensures Run(unicodeRows, os2Rows) == Outcome(Header() + TableLines(records), None)
    ensures Load(unicodeRows).Ok?
    ensures forall i :: 0 <= i < |SortRecords(records)| ==>
      RecordRule(Load(unicodeRows).value.chars, SortRecords(records)[i])
  {
    UrRecordsScan(unicodeRows, os2Rows);
    var chars := Load(unicodeRows).value.chars;
    Os2ScanInvariant(chars, os2Rows);
    SortingKeepsRule(chars, records);
  }

  /** Sorting only reorders the records, so each still obeys the record rule. */
  lemma SortingKeepsRule(chars: set<nat>, records: seq<Record>)
    requires forall k :: 0 <= k < |records| ==> RecordRule(chars, records[k])
    ensures forall i :: 0 <= i < |SortRecords(records)| ==> RecordRule(chars, SortRecords(records)[i])
  {
    var sorted := SortRecords(records);
    forall i | 0 <= i < |sorted| ensures RecordRule(chars, sorted[i]) {
      assert sorted[i] in multiset(records);
      var k :| 0 <= k < |records| && records[k] == sorted[i];
    }
  }

  /** A failure while UnicodeData.txt is read (it is read first) names the first bad row of
      that file: the rows before it load. */
  lemma UnicodeDataFailure(unicodeRows: seq<seq<string>>, os2Rows: seq<seq<string>>, f: Failure)
    requires UrRecords(unicodeRows, os2Rows) == Err(f)
    ensures Load(unicodeRows).Err? ==>
      f.file == UnicodeData && f.row < |unicodeRows| && Load(unicodeRows[..f.row]).Ok?
  {
    if Load(unicodeRows).Err? {
      LoadFailsAtFirstBadRow(unicodeRows);
    }
  }

  /** Once UnicodeData.txt has loaded, a failure names the first bad row of os2_ur.txt:
      the rows before it scan without error. */
  lemma BitListFailure(unicodeRows: seq<seq<string>>, os2Rows: seq<seq<string>>, f: Failure)
    requires UrRecords(unicodeRows, os2Rows) == Err(f)
    ensures Load(unicodeRows).Ok? ==>
      f.file == Os2UnicodeRanges && f.row < |os2Rows| && Os2Scan(Load(unicodeRows).value.chars, os2Rows[..f.row]).Ok?
  {
    if Load(unicodeRows).Ok? {
      Os2FailureRow(Load(unicodeRows).value.chars, os2Rows);
    }
  }
}
