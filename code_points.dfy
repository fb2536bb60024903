/** The code-point loader (`_get_unichars`) and the range counter
    (`_count_chars_in_range`): the set of assigned code points read from the rows of
    UnicodeData.txt, and the number of them in an inclusive range. */
module CodePoints {
  import opened Wrappers
  import opened Text
  import opened Numerals

  /** How a UnicodeData.txt row is read, decided by its name field. "First" is tested
      before "Last", so a name holding both opens a range. */
  datatype Marker = Single | RangeFirst | RangeLast

  function MarkerOf(name: string): Marker
  {
    if Contains(name, "First") then RangeFirst
    else if Contains(name, "Last") then RangeLast
    else Single
  }

  /** The two fields of a UnicodeData.txt row the loader uses. */
  datatype UnicodeEntry = UnicodeEntry(cp: nat, name: string)

  /** Field 0 is read as hexadecimal before field 1 is looked at, so a row with a bad code
      point and no name fails on the code point. */
  function ParseUnicodeRow(row: seq<string>): Result<UnicodeEntry, Reason>
  {
    if |row| == 0 then Err(MissingField)
    else
      match ParseHex(row[0])
      case None => Err(BadHex)
      case Some(cp) => if |row| < 2 then Err(MissingField) else Ok(UnicodeEntry(cp, row[1]))
  }

  /** The loader's two variables: the set built so far and the pending range start. */
  datatype LoaderState = LoaderState(chars: set<nat>, pending: Option<nat>)

  const Initial: LoaderState := LoaderState({}, None)

  /** The code points from `lo` to `hi` inclusive. */
  function Interval(lo: nat, hi: nat): (r: set<nat>)
    ensures forall c :: c in r <==> lo <= c <= hi
    decreases hi
  {
    if hi < lo then {} else if hi == lo then {lo} else Interval(lo, hi - 1) + {hi}
  }

  /** One row: a "First" row only records its code point as pending; a "Last" row adds
      the interval from the pending start and clears it, and fails when nothing is
      pending; any other row adds its own code point. */
  function LoadStep(st: LoaderState, e: UnicodeEntry): Option<LoaderState>
  {
    match MarkerOf(e.name)
    case RangeFirst => Some(LoaderState(st.chars, Some(e.cp)))
    case RangeLast =>
      if st.pending.None? then None
      else Some(LoaderState(st.chars + Interval(st.pending.value, e.cp), None))
    case Single => Some(LoaderState(st.chars + {e.cp}, st.pending))
  }

  /** The loader over the rows, in file order; the first row that cannot be read, or the
      first unmatched "Last", ends the run with a failure at that row. */
  function Load(rows: seq<seq<string>>): Result<LoaderState, Failure>
    decreases |rows|
  {
    if |rows| == 0 then Ok(Initial)
    else
      var k := |rows| - 1;
      match Load(rows[..k])
      case Err(f) => Err(f)
      case Ok(st) =>
        match ParseUnicodeRow(rows[k])
        case Err(reason) => Err(Failure(UnicodeData, k, reason))
        case Ok(e) =>
          match LoadStep(st, e)
          case None => Err(Failure(UnicodeData, k, LastWithoutFirst))
          case Some(next) => Ok(next)
  }

  /** `_get_unichars` on rows already split at ';'. */
  method GetUnichars(rows: seq<seq<string>>) returns (r: Result<set<nat>, Failure>)
    ensures Load(rows).Ok? ==> r == Ok(Load(rows).value.chars)
    ensures Load(rows).Err? ==> r == Err(Load(rows).error)
  {
    var unichars: set<nat> := {};
    var start: Option<nat> := None;
    for i := 0 to |rows|
      invariant Load(rows[..i]) == Ok(LoaderState(unichars, start))
    {
      assert rows[..i + 1][..i] == rows[..i];
      var row := rows[i];
      if |row| == 0 {
        r := Err(Failure(UnicodeData, i, MissingField));
        LoadErrorPersists(rows, i + 1);
        return;
      }
      var parsed := ParseHex(row[0]);
      if parsed.None? {
        r := Err(Failure(UnicodeData, i, BadHex));
        LoadErrorPersists(rows, i + 1);
        return;
      }
      var unichar := parsed.value;
      if |row| < 2 {
        r := Err(Failure(UnicodeData, i, MissingField));
        LoadErrorPersists(rows, i + 1);
        return;
      }
      var name := row[1];
      if Contains(name, "First") {
        start := Some(unichar);
      } else if Contains(name, "Last") {
        if start.None? {
          r := Err(Failure(UnicodeData, i, LastWithoutFirst));
          LoadErrorPersists(rows, i + 1);
          return;
        }
        var first := start.value;
        ghost var before := unichars;
        var c := first;
        while c <= unichar
          invariant first <= c && (c <= unichar + 1 || c == first)
          invariant forall x :: x in unichars <==> x in before || first <= x < c
        {
          unichars := unichars + {c};
          c := c + 1;
        }
        assert unichars == before + Interval(first, unichar);
        start := None;
      } else {
        unichars := unichars + {unichar};
      }
    }
    assert rows[..|rows|] == rows;
    r := Ok(unichars);
  }

  /** Once a prefix fails, the whole table fails with the same failure. */
  lemma {:induction false} LoadErrorPersists(rows: seq<seq<string>>, n: nat)
    requires n <= |rows| && Load(rows[..n]).Err?
    ensures Load(rows) == Load(rows[..n])
    decreases |rows|
  {
    if n < |rows| {
      var k := |rows| - 1;
      assert rows[..k][..n] == rows[..n];
      LoadErrorPersists(rows[..k], n);
    } else {
      assert rows[..n] == rows;
    }
  }

  /** A failure names a row of the table, and every row before it was read without
      failure: the run stops at the first offending row. */
  lemma {:induction false} LoadFailsAtFirstBadRow(rows: seq<seq<string>>)
    requires Load(rows).Err?
    ensures Load(rows).error.row < |rows| && Load(rows).error.file == UnicodeData
    ensures Load(rows[..Load(rows).error.row]).Ok?
    decreases |rows|
  {
    var k := |rows| - 1;
    if Load(rows[..k]).Err? {
      LoadFailsAtFirstBadRow(rows[..k]);
      var f := Load(rows[..k]).error;
      assert rows[..k][..f.row] == rows[..f.row];
    }
  }

  // ----- The loader over rows that have already been read -------------------------

  /** The same loop over entries whose fields are already read. */
  function ScanEntries(es: seq<UnicodeEntry>): Option<LoaderState>
    decreases |es|
  {
    if |es| == 0 then Some(Initial)
    else
      match ScanEntries(es[..|es| - 1])
      case None => None
      case Some(st) => LoadStep(st, es[|es| - 1])
  }

  /** The entries of a table whose every row can be read. */
  function EntriesOf(rows: seq<seq<string>>): (es: seq<UnicodeEntry>)
    requires forall k :: 0 <= k < |rows| ==> ParseUnicodeRow(rows[k]).Ok?
    ensures |es| == |rows| && forall k :: 0 <= k < |rows| ==> ParseUnicodeRow(rows[k]) == Ok(es[k])
  {
    seq(|rows|, k requires 0 <= k < |rows| => ParseUnicodeRow(rows[k]).value)
  }

  /** Loading a table succeeds exactly when every row can be read and no "Last" is
      unmatched, and then it agrees with the loop over the read entries. */
  lemma {:induction false} LoadIsScan(rows: seq<seq<string>>)
    ensures Load(rows).Ok? <==>
      (forall k :: 0 <= k < |rows| ==> ParseUnicodeRow(rows[k]).Ok?) && ScanEntries(EntriesOf(rows)).Some?
    ensures Load(rows).Ok? ==> Load(rows).value == ScanEntries(EntriesOf(rows)).value
    decreases |rows|
  {
    if |rows| > 0 {
      var k := |rows| - 1;
      var prefix := rows[..k];
      LoadIsScan(prefix);
      if forall j :: 0 <= j < |rows| ==> ParseUnicodeRow(rows[j]).Ok? {
        var es := EntriesOf(rows);
        assert forall j :: 0 <= j < |prefix| ==> ParseUnicodeRow(prefix[j]).Ok? by {
          forall j | 0 <= j < |prefix| ensures ParseUnicodeRow(prefix[j]).Ok? {
            assert prefix[j] == rows[j];
          }
        }
        assert EntriesOf(prefix) == es[..k];
      } else {
        var j :| 0 <= j < |rows| && ParseUnicodeRow(rows[j]).Err?;
        if j < k {
          assert prefix[j] == rows[j];
        }
      }
    }
  }

  /** Row `i` is a "First" row that is still pending when row `j` is read: every row
      strictly between them is a plain row. */
  ghost predicate OpenBefore(es: seq<UnicodeEntry>, i: int, j: int)
  {
    0 <= i < j <= |es| && MarkerOf(es[i].name) == RangeFirst &&
    forall k :: i < k < j ==> MarkerOf(es[k].name) == Single
  }

  /** Row `k` is a plain row for code point `c`. */
  ghost predicate ListedAt(es: seq<UnicodeEntry>, k: int, c: nat)
  {
    0 <= k < |es| && MarkerOf(es[k].name) == Single && es[k].cp == c
  }

  /** The "First" row `i` is closed by the "Last" row `j`. */
  ghost predicate Paired(es: seq<UnicodeEntry>, i: int, j: int)
  {
    OpenBefore(es, i, j) && j < |es| && MarkerOf(es[j].name) == RangeLast
  }

  /** Row `j` is a "Last" row with no pending "First" row. */
  ghost predicate Unmatched(es: seq<UnicodeEntry>, j: int)
  {
    0 <= j < |es| && MarkerOf(es[j].name) == RangeLast && forall i :: !OpenBefore(es, i, j)
  }

  /** `c` is the code point of a plain row, or lies in a paired First/Last range. */
  ghost predicate Assigned(es: seq<UnicodeEntry>, c: nat)
  {
    (exists k :: ListedAt(es, k, c)) || (exists i, j :: Paired(es, i, j) && es[i].cp <= c <= es[j].cp)
  }

  /** The loader's state after `es` is what `es` says: its set holds exactly the
      assigned code points, and its pending start is that of the "First" row still open,
      if any. */
  ghost predicate Characterizes(es: seq<UnicodeEntry>, st: LoaderState)
  {
    (forall c: nat :: c in st.chars <==> Assigned(es, c)) &&
    (st.pending.None? <==> forall i :: !OpenBefore(es, i, |es|)) &&
    (forall i :: OpenBefore(es, i, |es|) ==> st.pending == Some(es[i].cp))
  }

  /** What the loop computes: it fails exactly when some "Last" row is unmatched, and
      otherwise its final state is characterized by the entries. */
  lemma {:induction false} ScanCharacterized(es: seq<UnicodeEntry>)
    ensures ScanEntries(es).None? <==> exists j :: Unmatched(es, j)
    ensures ScanEntries(es).Some? ==> Characterizes(es, ScanEntries(es).value)
    decreases |es|
  {
    if |es| == 0 {
      assert forall i :: !OpenBefore(es, i, 0);
    } else {
      var n := |es| - 1;
      var p := es[..n];
      ScanCharacterized(p);
      if ScanEntries(p).None? {
        var j :| Unmatched(p, j);
        UnmatchedPrefix(es, n, j);
      } else {
        var st := ScanEntries(p).value;
        if LoadStep(st, es[n]).None? {
          forall i ensures !OpenBefore(es, i, n) {
            OpenPrefix(es, n, i, n);
          }
          assert Unmatched(es, n);
        } else {
          NoUnmatchedStep(es, p, st);
          var next := LoadStep(st, es[n]).value;
          forall c: nat ensures c in next.chars <==> Assigned(es, c) {
            AssignedStep(es, st, c);
          }
          PendingStep(es, st);
        }
      }
    }
  }

  /** `OpenBefore` on a prefix `es[..m]` is `OpenBefore` on `es`, for `j <= m`. */
  lemma OpenPrefix(es: seq<UnicodeEntry>, m: nat, i: int, j: int)
    requires m <= |es| && j <= m
    ensures OpenBefore(es[..m], i, j) <==> OpenBefore(es, i, j)
  {
    if 0 <= i < j {
      assert forall k :: i <= k < j ==> es[..m][k] == es[k];
    }
  }

  lemma UnmatchedPrefix(es: seq<UnicodeEntry>, m: nat, j: int)
    requires m <= |es|
    ensures Unmatched(es[..m], j) <==> Unmatched(es, j) && j < m
  {
    if 0 <= j < m {
      forall i ensures OpenBefore(es[..m], i, j) <==> OpenBefore(es, i, j) {
        OpenPrefix(es, m, i, j);
      }
    }
  }

  /** A successful step leaves no unmatched "Last" row. */
  lemma NoUnmatchedStep(es: seq<UnicodeEntry>, p: seq<UnicodeEntry>, st: LoaderState)
    requires |es| > 0 && p == es[..|es| - 1]
    requires forall j :: !Unmatched(p, j)
    requires Characterizes(p, st)
    requires LoadStep(st, es[|es| - 1]).Some?
    ensures forall j :: !Unmatched(es, j)
  {
    var n := |es| - 1;
    forall j ensures !Unmatched(es, j) {
      UnmatchedPrefix(es, n, j);
      if j == n && MarkerOf(es[n].name) == RangeLast {
        var i :| OpenBefore(es[..n], i, n);
        OpenPrefix(es, n, i, n);
      }
    }
  }

  /** The pending start after a successful step. */
  lemma PendingStep(es: seq<UnicodeEntry>, st: LoaderState)
    requires |es| > 0
    requires Characterizes(es[..|es| - 1], st)
    requires LoadStep(st, es[|es| - 1]).Some?
    ensures var next := LoadStep(st, es[|es| - 1]).value;
      (next.pending.None? <==> forall i :: !OpenBefore(es, i, |es|)) &&
      (forall i :: OpenBefore(es, i, |es|) ==> next.pending == Some(es[i].cp))
  {
    if MarkerOf(es[|es| - 1].name) == Single {
      PendingAfterPlainRow(es, st);
    } else {
      PendingAfterMarkedRow(es, st);
    }
  }

  /** A plain row leaves the open "First" row, and the pending start, as they were. */
  lemma PendingAfterPlainRow(es: seq<UnicodeEntry>, st: LoaderState)
    requires |es| > 0 && MarkerOf(es[|es| - 1].name) == Single
    requires Characterizes(es[..|es| - 1], st)
    ensures (st.pending.None? <==> forall i :: !OpenBefore(es, i, |es|)) &&
      (forall i :: OpenBefore(es, i, |es|) ==> st.pending == Some(es[i].cp))
  {
    var n := |es| - 1;
    var p := es[..n];
    forall i ensures OpenBefore(es, i, |es|) <==> OpenBefore(p, i, n) {
      OpenPrefix(es, n, i, n);
      if 0 <= i < n {
        assert (forall k :: i < k < |es| ==> MarkerOf(es[k].name) == Single) <==>
               (forall k :: i < k < n ==> MarkerOf(es[k].name) == Single);
      }
    }
  }

  /** After a "First" row only that row is open; after a "Last" row none is. */
  lemma PendingAfterMarkedRow(es: seq<UnicodeEntry>, st: LoaderState)
    requires |es| > 0 && MarkerOf(es[|es| - 1].name) != Single
    requires LoadStep(st, es[|es| - 1]).Some?
    ensures var next := LoadStep(st, es[|es| - 1]).value;
      (next.pending.None? <==> forall i :: !OpenBefore(es, i, |es|)) &&
      (forall i :: OpenBefore(es, i, |es|) ==> next.pending == Some(es[i].cp))
  {
    var n := |es| - 1;
    forall i | 0 <= i < n ensures !OpenBefore(es, i, |es|) {
      assert MarkerOf(es[n].name) != Single;
    }
    if MarkerOf(es[n].name) == RangeFirst {
      assert OpenBefore(es, n, |es|);
    }
  }

  /** Membership after a successful step, one code point at a time. */
  lemma AssignedStep(es: seq<UnicodeEntry>, st: LoaderState, c: nat)
    requires |es| > 0
    requires Characterizes(es[..|es| - 1], st)
    requires LoadStep(st, es[|es| - 1]).Some?
    ensures c in LoadStep(st, es[|es| - 1]).value.chars <==> Assigned(es, c)
  {
    var n := |es| - 1;
    var p := es[..n];
    if c in LoadStep(st, es[n]).value.chars {
      if c in st.chars {
        AssignedGrows(es, c);
      } else {
        AddedIsAssigned(es, p, st, c);
      }
    }
    if Assigned(es, c) {
      AssignedIsAdded(es, st, c);
    }
  }

  /** A code point the step adds is assigned by the row just read. */
  lemma AddedIsAssigned(es: seq<UnicodeEntry>, p: seq<UnicodeEntry>, st: LoaderState, c: nat)
    requires |es| > 0 && p == es[..|es| - 1]
    requires st.pending.Some? ==> exists i :: OpenBefore(p, i, |p|)
    requires forall i :: OpenBefore(p, i, |p|) ==> st.pending == Some(p[i].cp)
    requires LoadStep(st, es[|es| - 1]).Some?
    requires c in LoadStep(st, es[|es| - 1]).value.chars && c !in st.chars
    ensures Assigned(es, c)
  {
    var n := |es| - 1;
    var e := es[n];
    match MarkerOf(e.name)
    case Single =>
      assert ListedAt(es, n, c);
    case RangeLast =>
      var i :| OpenBefore(p, i, n);
      OpenPrefix(es, n, i, n);
      assert Paired(es, i, n) && es[i].cp <= c <= es[n].cp;
  }

  /** A code point the whole sequence assigns is in the set after the step. */
  lemma AssignedIsAdded(es: seq<UnicodeEntry>, st: LoaderState, c: nat)
    requires |es| > 0
    requires Assigned(es[..|es| - 1], c) ==> c in st.chars
    requires forall i :: OpenBefore(es[..|es| - 1], i, |es| - 1) ==> st.pending == Some(es[i].cp)
    requires LoadStep(st, es[|es| - 1]).Some?
    requires Assigned(es, c)
    ensures c in LoadStep(st, es[|es| - 1]).value.chars
  {
    var n := |es| - 1;
    var p := es[..n];
    if k :| ListedAt(es, k, c) {
      if k < n {
        assert ListedAt(p, k, c);
      }
    } else {
      var i, j :| Paired(es, i, j) && es[i].cp <= c <= es[j].cp;
      OpenPrefix(es, n, i, j);
      if j < n {
        assert Paired(p, i, j) && p[i].cp <= c <= p[j].cp;
      } else {
        assert st.pending == Some(p[i].cp);
      }
    }
  }

  /** What the prefix assigns, the whole sequence assigns. */
  lemma AssignedGrows(es: seq<UnicodeEntry>, c: nat)
    requires |es| > 0 && Assigned(es[..|es| - 1], c)
    ensures Assigned(es, c)
  {
    var n := |es| - 1;
    var p := es[..n];
    if k :| ListedAt(p, k, c) {
      assert ListedAt(es, k, c);
    } else {
      var i, j :| Paired(p, i, j) && p[i].cp <= c <= p[j].cp;
      OpenPrefix(es, n, i, j);
      assert Paired(es, i, j) && es[i].cp <= c <= es[j].cp;
    }
  }

  /** `_get_unichars` on a table it accepts: every row can be read, and a code point is in
      the set exactly when it is listed on a plain row or lies between a "First" row and
      the "Last" row that closes it. */
  lemma LoadedCodePoints(rows: seq<seq<string>>)
    requires Load(rows).Ok?
    ensures forall k :: 0 <= k < |rows| ==> ParseUnicodeRow(rows[k]).Ok?
    ensures forall c: nat :: c in Load(rows).value.chars <==> Assigned(EntriesOf(rows), c)
  {
    LoadIsScan(rows);
    ScanCharacterized(EntriesOf(rows));
  }

  /** For a table whose rows can all be read, loading fails exactly when some "Last"
      row has no pending "First" row. */
  lemma LoadFailsOnUnmatchedLast(rows: seq<seq<string>>)
    requires forall k :: 0 <= k < |rows| ==> ParseUnicodeRow(rows[k]).Ok?
    ensures Load(rows).Err? <==> exists j :: Unmatched(EntriesOf(rows), j)
  {
    LoadIsScan(rows);
    ScanCharacterized(EntriesOf(rows));
  }

  // ----- _count_chars_in_range ------------------------------------------------------

  /** The members of `unichars` in `[lo, hi)`. */
  function MembersBelow(unichars: set<nat>, lo: nat, hi: nat): set<nat>
  {
    set c | c in unichars && lo <= c < hi
  }

  /** The number of members of `unichars` in `[start, end]`. */
  function CountInRange(unichars: set<nat>, start: nat, end: nat): nat
  {
    |MembersBelow(unichars, start, end + 1)|
  }

  /** `_count_chars_in_range`: a loop over `range(start, end + 1)` that counts members. */
  method CountCharsInRange(unichars: set<nat>, start: nat, end: nat) returns (count: nat)
    ensures count == CountInRange(unichars, start, end)
  {
    count := 0;
    var c := start;
    while c <= end
      invariant start <= c && (c <= end + 1 || c == start)
      invariant count == |MembersBelow(unichars, start, c)|
    {
      MembersBelowStep(unichars, start, c);
      if c in unichars {
        count := count + 1;
      }
      c := c + 1;
    }
    assert MembersBelow(unichars, start, c) == MembersBelow(unichars, start, end + 1);
  }

  /** Extending the range by one code point adds it exactly when it is a member. */
  lemma MembersBelowStep(unichars: set<nat>, lo: nat, hi: nat)
    requires lo <= hi
    ensures MembersBelow(unichars, lo, hi + 1) ==
      MembersBelow(unichars, lo, hi) + (if hi in unichars then {hi} else {})
    ensures |MembersBelow(unichars, lo, hi + 1)| ==
      |MembersBelow(unichars, lo, hi)| + (if hi in unichars then 1 else 0)
  {
    assert hi !in MembersBelow(unichars, lo, hi);
  }

  /** A range holds at most as many members as it has code points. */
  lemma {:induction false} MembersBelowBound(unichars: set<nat>, lo: nat, hi: nat)
    requires lo <= hi
    ensures |MembersBelow(unichars, lo, hi)| <= hi - lo
    decreases hi - lo
  {
    if lo < hi {
      MembersBelowBound(unichars, lo, hi - 1);
      MembersBelowStep(unichars, lo, hi - 1);
    } else {
      assert MembersBelow(unichars, lo, hi) == {};
    }
  }

  /** The count is at most the width of the range, and 0 when the range is empty. */
  lemma CountInRangeBounds(unichars: set<nat>, start: nat, end: nat)
    ensures start <= end ==> CountInRange(unichars, start, end) <= end - start + 1
    ensures end < start ==> CountInRange(unichars, start, end) == 0
  {
    if start <= end {
      MembersBelowBound(unichars, start, end + 1);
    } else {
      assert MembersBelow(unichars, start, end + 1) == {};
    }
  }

  /** The count is the number of assigned code points in the inclusive interval. */
  lemma CountInRangeIsIntersection(unichars: set<nat>, start: nat, end: nat)
    ensures CountInRange(unichars, start, end) == |unichars * Interval(start, end)|
  {
    assert MembersBelow(unichars, start, end + 1) == unichars * Interval(start, end);
  }
}
