/** String operations the generator takes from Python's `str`: substring tests,
    `replace`, `split`, `isdigit`, `lower` and the padding of `%` formatting. */
module Text {

  /** `p` occurs in `s` starting at index `i`. */
  predicate OccursAt(s: string, p: string, i: int)
  {
    0 <= i && i + |p| <= |s| && s[i..i + |p|] == p
  }

  predicate StartsWith(s: string, p: string)
  {
    |p| <= |s| && s[..|p|] == p
  }

  /** Python's `p in s` for strings. */
  predicate Contains(s: string, p: string)
    decreases |s|
  {
    StartsWith(s, p) || (|s| > 0 && Contains(s[1..], p))
  }

  /** An occurrence at any index makes `Contains` hold. */
  lemma {:induction false} OccursContains(s: string, p: string, i: int)
    requires OccursAt(s, p, i)
    ensures Contains(s, p)
    decreases i
  {
    if i > 0 {
      ShiftOccurs(s, p, 1, i - 1);
      OccursContains(s[1..], p, i - 1);
    }
  }

  /** An occurrence in a suffix `s[d..]` is an occurrence in `s`, `d` places further on. */
  lemma ShiftOccurs(s: string, p: string, d: nat, j: int)
    requires d <= |s|
    ensures OccursAt(s[d..], p, j) <==> OccursAt(s, p, j + d) && j >= 0
  {
    if 0 <= j && j + |p| <= |s| - d {
      assert s[d..][j..j + |p|] == s[j + d..j + d + |p|];
    }
  }

  /** `Contains` holds exactly when there is an index where `p` occurs. */
  lemma {:induction false} ContainsIff(s: string, p: string)
    ensures Contains(s, p) <==> exists i :: OccursAt(s, p, i)
    decreases |s|
  {
    if StartsWith(s, p) {
      assert OccursAt(s, p, 0);
    } else if |s| > 0 {
      ContainsIff(s[1..], p);
      if Contains(s[1..], p) {
        var j :| OccursAt(s[1..], p, j);
        ShiftOccurs(s, p, 1, j);
      }
    }
    forall i | OccursAt(s, p, i) ensures Contains(s, p) {
      OccursContains(s, p, i);
    }
  }

  /** Python's `s.replace(pat, rep)` for a non-empty `pat`: occurrences are found left to
      right and do not overlap; scanning resumes right after each replaced occurrence. */
  function ReplaceAll(s: string, pat: string, rep: string): string
    requires |pat| > 0
    decreases |s|
  {
    if |s| < |pat| then s
    else if s[..|pat|] == pat then rep + ReplaceAll(s[|pat|..], pat, rep)
    else [s[0]] + ReplaceAll(s[1..], pat, rep)
  }

  /** A replacement of equal length keeps the length of the string. */
  lemma {:induction false} ReplaceAllLength(s: string, pat: string, rep: string)
    requires |pat| > 0 && |rep| == |pat|
    ensures |ReplaceAll(s, pat, rep)| == |s|
    decreases |s|
  {
    if |s| < |pat| {
    } else if s[..|pat|] == pat {
      ReplaceAllLength(s[|pat|..], pat, rep);
    } else {
      ReplaceAllLength(s[1..], pat, rep);
    }
  }

  /** Without an occurrence of `pat`, `replace` returns the string unchanged. */
  lemma {:induction false} ReplaceAllAbsent(s: string, pat: string, rep: string)
    requires |pat| > 0 && !Contains(s, pat)
    ensures ReplaceAll(s, pat, rep) == s
    decreases |s|
  {
    if |s| < |pat| {
    } else {
      assert !StartsWith(s, pat);
      ReplaceAllAbsent(s[1..], pat, rep);
    }
  }

  /** The first occurrence of `pat` is replaced: everything before it is kept, it becomes
      `rep`, and scanning resumes right after it. With `ReplaceAllAbsent` this determines
      `replace` on every input. */
  lemma {:induction false} ReplaceAllAtFirst(s: string, pat: string, rep: string, i: nat)
    requires |pat| > 0 && OccursAt(s, pat, i)
    requires forall j :: 0 <= j < i ==> !OccursAt(s, pat, j)
    ensures ReplaceAll(s, pat, rep) == s[..i] + rep + ReplaceAll(s[i + |pat|..], pat, rep)
    decreases i
  {
    if i == 0 {
      assert s[..0] + rep == rep;
    } else {
      var t := s[1..];
      ReplaceAllSkips(s, pat, rep);
      NoEarlierInTail(s, pat, i);
      ReplaceAllAtFirst(t, pat, rep, i - 1);
      TailSuffix(s, i + |pat|);
      Regroup(s, rep, ReplaceAll(s[i + |pat|..], pat, rep), i);
    }
  }

  /** Where `pat` does not start, `replace` keeps the first character. */
  lemma ReplaceAllSkips(s: string, pat: string, rep: string)
    requires |pat| > 0 && |s| > 0 && !OccursAt(s, pat, 0)
    ensures ReplaceAll(s, pat, rep) == [s[0]] + ReplaceAll(s[1..], pat, rep)
  {
  }

  /** The first occurrence at `i` is the first occurrence at `i - 1` of the tail. */
  lemma NoEarlierInTail(s: string, pat: string, i: nat)
    requires 0 < i && OccursAt(s, pat, i)
    requires forall j :: 0 <= j < i ==> !OccursAt(s, pat, j)
    ensures OccursAt(s[1..], pat, i - 1)
    ensures forall j :: 0 <= j < i - 1 ==> !OccursAt(s[1..], pat, j)
  {
    forall j | 0 <= j < i - 1 ensures !OccursAt(s[1..], pat, j) {
      ShiftOccurs(s, pat, 1, j);
    }
    ShiftOccurs(s, pat, 1, i - 1);
  }

  /** A suffix of the tail is a suffix of the string. */
  lemma TailSuffix<T>(s: seq<T>, k: nat)
    requires 0 < k <= |s|
    ensures s[1..][k - 1..] == s[k..]
  {
  }

  /** The inductive step of `ReplaceAllAtFirst`, regrouped. */
  lemma Regroup<T>(s: seq<T>, rep: seq<T>, rest: seq<T>, i: nat)
    requires 0 < i <= |s|
    ensures [s[0]] + (s[1..][..i - 1] + rep + rest) == s[..i] + rep + rest
  {
    assert s[..i] == [s[0]] + s[1..][..i - 1];
  }

  /** Position `i` of `r` either keeps the character of `s`, or lies inside an occurrence
      of `pat` in `s` that starts at `j`, and then holds the matching character of `rep`. */
  ghost predicate KeptOrReplaced(s: string, r: string, pat: string, rep: string, i: int)
    requires 0 <= i < |s| && |r| == |s| && |rep| == |pat|
  {
    r[i] == s[i] || exists j :: OccursAt(s, pat, j) && j <= i < j + |pat| && r[i] == rep[i - j]
  }

  /** Every character that `replace` changes lies inside an occurrence of `pat` in the
      input and becomes the corresponding character of `rep`. */
  lemma {:induction false} ReplaceAllChanges(s: string, pat: string, rep: string)
    requires |pat| > 0 && |rep| == |pat|
    ensures |ReplaceAll(s, pat, rep)| == |s|
    ensures forall i :: 0 <= i < |s| ==> KeptOrReplaced(s, ReplaceAll(s, pat, rep), pat, rep, i)
    decreases |s|
  {
    ReplaceAllLength(s, pat, rep);
    if |s| >= |pat| {
      var matched := s[..|pat|] == pat;
      var d := if matched then |pat| else 1;
      ReplaceAllChanges(s[d..], pat, rep);
      var r := ReplaceAll(s, pat, rep);
      var head := if matched then rep else [s[0]];
      assert r == head + ReplaceAll(s[d..], pat, rep);
      assert r[d..] == ReplaceAll(s[d..], pat, rep);
      forall i | 0 <= i < |s| ensures KeptOrReplaced(s, r, pat, rep, i) {
        if i < d {
          assert matched ==> OccursAt(s, pat, 0) && r[i] == rep[i - 0];
        } else {
          KeptOrReplacedShift(s, r, pat, rep, d, i);
        }
      }
    }
  }

  /** One step of `ReplaceAllChanges`: a position past the first `d` characters inherits
      its justification from the suffixes after them. */
  lemma KeptOrReplacedShift(s: string, r: string, pat: string, rep: string, d: nat, i: int)
    requires |rep| == |pat| && |r| == |s| && d <= i < |s|
    requires KeptOrReplaced(s[d..], r[d..], pat, rep, i - d)
    ensures KeptOrReplaced(s, r, pat, rep, i)
  {
    var k := i - d;
    assert r[d..][k] == r[i] && s[d..][k] == s[i];
    if r[i] != s[i] {
      var j :| OccursAt(s[d..], pat, j) && j <= k < j + |pat| && r[d..][k] == rep[k - j];
      ShiftOccurs(s, pat, d, j);
      assert OccursAt(s, pat, j + d) && r[i] == rep[i - (j + d)];
    }
  }

  /** Python's `s.split(sep)` for a one-character separator: the pieces between the
      separators, always at least one. */
  function Split(s: string, sep: char): (pieces: seq<string>)
    ensures |pieces| >= 1
    decreases |s|
  {
    if |s| == 0 then [""]
    else
      var rest := Split(s[1..], sep);
      if s[0] == sep then [""] + rest
      else [[s[0]] + rest[0]] + rest[1..]
  }

  /** Python's `sep.join(pieces)` for a one-character separator. */
  function Join(pieces: seq<string>, sep: char): string
  {
    if |pieces| == 0 then ""
    else if |pieces| == 1 then pieces[0]
    else pieces[0] + [sep] + Join(pieces[1..], sep)
  }

  /** Joining one more piece puts a separator before it. */
  lemma {:induction false} JoinSnoc(pieces: seq<string>, x: string, sep: char)
    requires |pieces| >= 1
    ensures Join(pieces + [x], sep) == Join(pieces, sep) + [sep] + x
    decreases |pieces|
  {
    var q := pieces + [x];
    assert q[1..] == pieces[1..] + [x];
    if |pieces| > 1 {
      JoinSnoc(pieces[1..], x, sep);
    } else {
      assert q[1..] == [x];
    }
  }

  /** `split` loses nothing: joining the pieces gives back the string, and no piece
      contains the separator. */
  lemma {:induction false} SplitJoin(s: string, sep: char)
    ensures Join(Split(s, sep), sep) == s
    ensures forall k :: 0 <= k < |Split(s, sep)| ==> sep !in Split(s, sep)[k]
    decreases |s|
  {
    if |s| > 0 {
      SplitJoin(s[1..], sep);
      var rest := Split(s[1..], sep);
      if s[0] == sep {
        assert Split(s, sep) == [""] + rest;
        assert ([""] + rest)[1..] == rest;
        assert s == [sep] + s[1..];
      } else {
        var pieces := Split(s, sep);
        assert pieces == [[s[0]] + rest[0]] + rest[1..];
        assert pieces[1..] == rest[1..];
        if |rest| == 1 {
          assert Join(rest, sep) == rest[0];
          assert s == [s[0]] + s[1..];
        } else {
          assert Join(rest, sep) == rest[0] + [sep] + Join(rest[1..], sep);
          assert s == [s[0]] + s[1..];
        }
        forall k | 0 <= k < |pieces| ensures sep !in pieces[k] {
          if k > 0 {
            assert pieces[k] == rest[k];
          } else {
            assert pieces[0] == [s[0]] + rest[0];
          }
        }
      }
    }
  }

  /** A piece free of the separator is not split. */
  lemma {:induction false} SplitNoSeparator(x: string, t: string, sep: char)
    requires sep !in x
    ensures Split(x + t, sep) == [x + Split(t, sep)[0]] + Split(t, sep)[1..]
    decreases |x|
  {
    if |x| > 0 {
      var s := x + t;
      assert s[1..] == x[1..] + t && s[0] == x[0] && s[0] != sep;
      SplitNoSeparator(x[1..], t, sep);
      var pieces, rest := Split(t, sep), Split(s[1..], sep);
      assert rest == [x[1..] + pieces[0]] + pieces[1..];
      assert Split(s, sep) == [[s[0]] + rest[0]] + rest[1..];
      assert [x[0]] + (x[1..] + pieces[0]) == x + pieces[0];
    } else {
      var pieces := Split(t, sep);
      assert x + t == t && x + pieces[0] == pieces[0];
      assert pieces == [pieces[0]] + pieces[1..];
    }
  }

  /** Two separator-free pieces joined by the separator split back into those pieces. */
  lemma SplitPair(x: string, y: string, sep: char)
    requires sep !in x && sep !in y
    ensures Split(x + [sep] + y, sep) == [x, y]
  {
    SplitNoSeparator(y, "", sep);
    assert y + "" == y && y + Split("", sep)[0] == y;
    assert Split(y, sep) == [y];
    var t := [sep] + y;
    assert t[1..] == y;
    assert Split(t, sep) == [""] + [y];
    SplitNoSeparator(x, t, sep);
    assert x + [sep] + y == x + t;
    assert x + "" == x;
  }

  /** Python's `c.isdigit()`, restricted to the ASCII digits. */
  predicate IsDigit(c: char)
  {
    '0' <= c <= '9'
  }

  /** Python's `lower()` on the ASCII letters; other characters are kept. */
  function Lower(s: string): (r: string)
    ensures |r| == |s|
    ensures forall i :: 0 <= i < |s| ==> r[i] == (if 'A' <= s[i] <= 'Z' then (s[i] as int + 32) as char else s[i])
  {
    if |s| == 0 then ""
    else
      var c := if 'A' <= s[0] <= 'Z' then (s[0] as int + 32) as char else s[0];
      [c] + Lower(s[1..])
  }

  /** `n` copies of `c`. */
  function Repeat(c: char, n: nat): (r: string)
    ensures |r| == n && forall i :: 0 <= i < n ==> r[i] == c
  {
    if n == 0 then "" else [c] + Repeat(c, n - 1)
  }

  /** Right-justification to `width` (`%Ns`, `%0Nd`): `fill` on the left, never truncating. */
  function PadLeft(s: string, width: nat, fill: char): (r: string)
    ensures |r| == if |s| < width then width else |s|
    ensures r[|r| - |s|..] == s
    ensures forall i :: 0 <= i < |r| - |s| ==> r[i] == fill
  {
    if |s| < width then Repeat(fill, width - |s|) + s else s
  }

  /** Left-justification to `width` (`%-Ns`): `fill` on the right, never truncating. */
  function PadRight(s: string, width: nat, fill: char): (r: string)
    ensures |r| == if |s| < width then width else |s|
    ensures r[..|s|] == s
    ensures forall i :: |s| <= i < |r| ==> r[i] == fill
  {
    if |s| < width then s + Repeat(fill, width - |s|) else s
  }

  /** Splitting text that starts with a separator-free piece and a separator. */
  lemma SplitCons(x: string, t: string, sep: char)
    requires sep !in x
    ensures Split(x + [sep] + t, sep) == [x] + Split(t, sep)
  {
    var u := [sep] + t;
    assert u[1..] == t;
    assert Split(u, sep) == [""] + Split(t, sep);
    SplitNoSeparator(x, u, sep);
    assert x + [sep] + t == x + u;
    assert x + "" == x;
  }

  /** The leading spaces removed. */
  function TrimLeading(s: string): (r: string)
    ensures |r| == 0 || r[0] != ' '
    decreases |s|
  {
    if |s| > 0 && s[0] == ' ' then TrimLeading(s[1..]) else s
  }

  /** The trailing spaces removed. */
  function TrimTrailing(s: string): (r: string)
    ensures |r| == 0 || r[|r| - 1] != ' '
    decreases |s|
  {
    if |s| > 0 && s[|s| - 1] == ' ' then TrimTrailing(s[..|s| - 1]) else s
  }

  /** Both ends' spaces removed. */
  function Trim(s: string): string
  {
    TrimTrailing(TrimLeading(s))
  }

  /** Right-justification is a run of the fill character in front. */
  lemma PadLeftFill(s: string, width: nat, fill: char)
    ensures PadLeft(s, width, fill) == Repeat(fill, |PadLeft(s, width, fill)| - |s|) + s
  {
    if |s| >= width {
      assert Repeat(fill, 0) + s == s;
    }
  }

  /** Padding with a fill character that has a property keeps the property of every
      character. */
  lemma PadLeftChars(s: string, width: nat, fill: char, p: char -> bool)
    requires p(fill)
    requires forall i :: 0 <= i < |s| ==> p(s[i])
    ensures forall i :: 0 <= i < |PadLeft(s, width, fill)| ==> p(PadLeft(s, width, fill)[i])
  {
    var r := PadLeft(s, width, fill);
    var k := |r| - |s|;
    forall i | k <= i < |r| ensures p(r[i]) {
      assert r[i] == r[k..][i - k] == s[i - k];
    }
  }

  /** Left-justification with spaces is a run of spaces behind. */
  lemma PadRightSpaces(s: string, width: nat)
    ensures PadRight(s, width, ' ') == s + Repeat(' ', |PadRight(s, width, ' ')| - |s|)
  {
    if |s| >= width {
      assert s + Repeat(' ', 0) == s;
    }
  }

  /** Trimming undoes padding with spaces on either side, for text that does not itself
      begin or end with a space. */
  lemma {:induction false} TrimPadded(a: nat, x: string, b: nat)
    requires |x| > 0 && x[0] != ' ' && x[|x| - 1] != ' '
    ensures Trim(Repeat(' ', a) + x + Repeat(' ', b)) == x
  {
    TrimLeadingSpaces(a, x + Repeat(' ', b));
    assert Repeat(' ', a) + x + Repeat(' ', b) == Repeat(' ', a) + (x + Repeat(' ', b));
    TrimTrailingSpaces(x, b);
  }

  /** Trimming undoes right-justification with spaces. */
  lemma TrimLeftPadded(a: nat, x: string)
    requires |x| > 0 && x[0] != ' ' && x[|x| - 1] != ' '
    ensures Trim(Repeat(' ', a) + x) == x
  {
    TrimLeadingSpaces(a, x);
  }

  lemma {:induction false} TrimLeadingSpaces(a: nat, x: string)
    requires |x| > 0 && x[0] != ' '
    ensures TrimLeading(Repeat(' ', a) + x) == x
    decreases a
  {
    if a == 0 {
      assert Repeat(' ', a) + x == x;
    } else {
      var s := Repeat(' ', a) + x;
      var t := Repeat(' ', a - 1) + x;
      assert s == [' '] + t;
      assert s[1..] == t;
      TrimLeadingSpaces(a - 1, x);
    }
  }

  lemma {:induction false} TrimTrailingSpaces(x: string, b: nat)
    requires |x| > 0 && x[|x| - 1] != ' '
    ensures TrimTrailing(x + Repeat(' ', b)) == x
    decreases b
  {
    if b == 0 {
      assert x + Repeat(' ', b) == x;
    } else {
      var s := x + Repeat(' ', b);
      assert s[..|s| - 1] == x + Repeat(' ', b - 1);
      TrimTrailingSpaces(x, b - 1);
    }
  }

  /** The converse of `SplitJoin`: separator-free pieces joined by the separator split
      back into the same pieces. */
  lemma {:induction false} JoinSplit(pieces: seq<string>, sep: char)
    requires |pieces| >= 1
    requires forall k :: 0 <= k < |pieces| ==> sep !in pieces[k]
    ensures Split(Join(pieces, sep), sep) == pieces
    decreases |pieces|
  {
    if |pieces| == 1 {
      SplitNoSeparator(pieces[0], "", sep);
      assert pieces[0] + "" == pieces[0];
    } else {
      JoinSplit(pieces[1..], sep);
      SplitCons(pieces[0], Join(pieces[1..], sep), sep);
    }
  }
}
