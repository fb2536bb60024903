/** Repair of the vendor table's over-eager title casing of block names: the words
    "And" and "For" between spaces become lower case. */
module NameRepair {
  import opened Text

  /** The conjunctions the generator repairs, in the order it repairs them. */
  const Conjunctions: seq<string> := ["And", "For"]

  /** One pass for one spaced word: when `word` occurs in `name`, the non-overlapping
      occurrences found left to right are replaced by `lowered`. */
  function RepairPass(name: string, word: string, lowered: string): string
    requires |word| > 0
  {
    if Contains(name, word) then ReplaceAll(name, word, lowered) else name
  }

  /** The passes for each conjunction in turn, each on the result of the one before. */
  function Repair(name: string, conjunctions: seq<string>): string
    decreases |conjunctions|
  {
    if |conjunctions| == 0 then name
    else
      var spaced := " " + conjunctions[0] + " ";
      Repair(RepairPass(name, spaced, Lower(spaced)), conjunctions[1..])
  }

  function FixTitleCasing(name: string): string
  {
    Repair(name, Conjunctions)
  }

  /** The repair is the " And " pass followed by the " For " pass. */
  lemma FixTitleCasingPasses(name: string)
    ensures FixTitleCasing(name) == RepairPass(RepairPass(name, " And ", " and "), " For ", " for ")
  {
    var cs := Conjunctions;
    var first, second := " " + cs[0] + " ", " " + cs[1..][0] + " ";
    assert first == " And " && second == " For ";
    LowerSpacedWord(first, " and ");
    LowerSpacedWord(second, " for ");
    var n1 := RepairPass(name, first, Lower(first));
    assert Repair(name, cs) == Repair(n1, cs[1..]);
    assert Repair(n1, cs[1..]) == Repair(RepairPass(n1, second, Lower(second)), cs[1..][1..]);
    assert cs[1..][1..] == [];
  }

  /** Lower-casing a spaced title-case word lower-cases only its initial letter. */
  lemma LowerSpacedWord(word: string, lowered: string)
    requires (word == " And " && lowered == " and ") || (word == " For " && lowered == " for ")
    ensures Lower(word) == lowered
  {
    var r := Lower(word);
    assert r[0] == lowered[0] && r[1] == lowered[1] && r[2] == lowered[2];
    assert r[3] == lowered[3] && r[4] == lowered[4];
  }

  /** A pass keeps the length, and every character it changes lies in an occurrence of
      `word` and becomes the character of `lowered` at that place. */
  lemma RepairPassChanges(name: string, word: string, lowered: string)
    requires |word| > 0 && |lowered| == |word|
    ensures |RepairPass(name, word, lowered)| == |name|
    ensures forall i :: 0 <= i < |name| ==> KeptOrReplaced(name, RepairPass(name, word, lowered), word, lowered, i)
  {
    if Contains(name, word) {
      ReplaceAllChanges(name, word, lowered);
    }
  }

  /** For a five-character spaced word whose lowered form differs only in the letter at
      index 1, a changed character is that letter of an occurrence starting one place
      earlier, and it now holds the lowered letter. */
  lemma OnlyInitialLetterChanges(s: string, r: string, word: string, lowered: string, i: int)
    requires |word| == 5 && |lowered| == 5
    requires forall k :: 0 <= k < 5 && k != 1 ==> word[k] == lowered[k]
    requires 0 <= i < |s| && |r| == |s|
    requires KeptOrReplaced(s, r, word, lowered, i) && r[i] != s[i]
    ensures 1 <= i && OccursAt(s, word, i - 1) && s[i] == word[1] && r[i] == lowered[1]
  {
    var j :| OccursAt(s, word, j) && j <= i < j + 5 && r[i] == lowered[i - j];
    assert s[i] == s[j..j + 5][i - j] == word[i - j];
  }

  /** The repair keeps the length of the name, and the only characters it changes are the
      initial letters of " And " and " For " occurrences of the input name, which become
      'a' and 'f'. */
  lemma FixTitleCasingChanges(name: string)
    ensures |FixTitleCasing(name)| == |name|
    ensures forall i :: 0 <= i < |name| && FixTitleCasing(name)[i] != name[i] ==>
      1 <= i && (
        (OccursAt(name, " And ", i - 1) && FixTitleCasing(name)[i] == 'a') ||
        (OccursAt(name, " For ", i - 1) && FixTitleCasing(name)[i] == 'f'))
  {
    FixTitleCasingPasses(name);
    var n1 := RepairPass(name, " And ", " and ");
    var r := RepairPass(n1, " For ", " for ");
    RepairPassChanges(name, " And ", " and ");
    RepairPassChanges(n1, " For ", " for ");
    forall i | 0 <= i < |name| && r[i] != name[i]
      ensures 1 <= i && ((OccursAt(name, " And ", i - 1) && r[i] == 'a') || (OccursAt(name, " For ", i - 1) && r[i] == 'f'))
    {
      ChangedByOnePass(name, n1, r, i);
    }
  }

  /** One changed character of the two passes `name` to `n1` to `r`. */
  lemma ChangedByOnePass(name: string, n1: string, r: string, i: int)
    requires |n1| == |name| && |r| == |name| && 0 <= i < |name| && r[i] != name[i]
    requires forall k :: 0 <= k < |name| ==> KeptOrReplaced(name, n1, " And ", " and ", k)
    requires forall k :: 0 <= k < |n1| ==> KeptOrReplaced(n1, r, " For ", " for ", k)
    ensures 1 <= i && ((OccursAt(name, " And ", i - 1) && r[i] == 'a') || (OccursAt(name, " For ", i - 1) && r[i] == 'f'))
  {
    if r[i] == n1[i] {
      OnlyInitialLetterChanges(name, n1, " And ", " and ", i);
    } else {
      OnlyInitialLetterChanges(n1, r, " For ", " for ", i);
      ForSurvivesAndPass(name, n1, i - 1);
    }
  }

  /** An occurrence of " For " after the " And " pass was already one before it, since
      that pass only writes 'a' where there was an 'A'. */
  lemma ForSurvivesAndPass(name: string, n1: string, j: int)
    requires |n1| == |name|
    requires forall i :: 0 <= i < |name| ==> KeptOrReplaced(name, n1, " And ", " and ", i)
    requires OccursAt(n1, " For ", j)
    ensures OccursAt(name, " For ", j)
  {
    forall m | j <= m < j + 5 ensures name[m] == n1[m] {
      assert n1[m] == n1[j..j + 5][m - j] == " For "[m - j];
      if n1[m] != name[m] {
        OnlyInitialLetterChanges(name, n1, " And ", " and ", m);
      }
    }
    assert name[j..j + 5] == n1[j..j + 5];
  }

  /** Conversely, every occurrence of " For " survives the " And " pass, whose changes are
      all 'A's of " And " and so never fall on a character of " For ". */
  lemma ForKeptByAndPass(name: string, n1: string, j: int)
    requires |n1| == |name|
    requires forall i :: 0 <= i < |name| ==> KeptOrReplaced(name, n1, " And ", " and ", i)
    requires OccursAt(name, " For ", j)
    ensures OccursAt(n1, " For ", j)
  {
    forall m | j <= m < j + 5 ensures n1[m] == name[m] {
      assert name[m] == name[j..j + 5][m - j] == " For "[m - j];
      if n1[m] != name[m] {
        OnlyInitialLetterChanges(name, n1, " And ", " and ", m);
      }
    }
    assert name[j..j + 5] == n1[j..j + 5];
  }

  /** A pass replaces the first occurrence of its word: the name before it is kept, the
      occurrence becomes the lowered word, and the rest is repaired in the same way. */
  lemma RepairPassAtFirst(name: string, word: string, lowered: string, i: nat)
    requires |word| > 0 && OccursAt(name, word, i)
    requires forall j :: 0 <= j < i ==> !OccursAt(name, word, j)
    ensures RepairPass(name, word, lowered) == name[..i] + lowered + ReplaceAll(name[i + |word|..], word, lowered)
  {
    OccursContains(name, word, i);
    ReplaceAllAtFirst(name, word, lowered, i);
  }

  /** The first " And " of a name is lowered: its 'A' becomes 'a' in the repaired name. */
  lemma FixTitleCasingLowersFirstAnd(name: string, i: nat)
    requires OccursAt(name, " And ", i)
    requires forall j :: 0 <= j < i ==> !OccursAt(name, " And ", j)
    ensures |FixTitleCasing(name)| == |name| && FixTitleCasing(name)[i + 1] == 'a'
  {
    FixTitleCasingPasses(name);
    var n1 := RepairPass(name, " And ", " and ");
    RepairPassAtFirst(name, " And ", " and ", i);
    RepairPassChanges(name, " And ", " and ");
    assert n1[i..i + 5][1] == n1[i + 1] == 'a';
    assert !OccursAt(n1, " For ", i);
    var r := RepairPass(n1, " For ", " for ");
    RepairPassChanges(n1, " For ", " for ");
    if r[i + 1] != n1[i + 1] {
      OnlyInitialLetterChanges(n1, r, " For ", " for ", i + 1);
    }
  }

  /** The first " For " of a name is lowered: its 'F' becomes 'f' in the repaired name. The
      " And " pass before it leaves the occurrences of " For " exactly as they were. */
  lemma FixTitleCasingLowersFirstFor(name: string, i: nat)
    requires OccursAt(name, " For ", i)
    requires forall j :: 0 <= j < i ==> !OccursAt(name, " For ", j)
    ensures |FixTitleCasing(name)| == |name| && FixTitleCasing(name)[i + 1] == 'f'
  {
    FixTitleCasingPasses(name);
    var n1 := RepairPass(name, " And ", " and ");
    RepairPassChanges(name, " And ", " and ");
    ForKeptByAndPass(name, n1, i);
    forall j | 0 <= j < i ensures !OccursAt(n1, " For ", j) {
      if OccursAt(n1, " For ", j) {
        ForSurvivesAndPass(name, n1, j);
      }
    }
    RepairPassAtFirst(n1, " For ", " for ", i);
    RepairPassChanges(n1, " For ", " for ");
  }

  /** A name with neither " And " nor " For " in it is returned unchanged. */
  lemma FixTitleCasingUnchanged(name: string)
    requires !Contains(name, " And ") && !Contains(name, " For ")
    ensures FixTitleCasing(name) == name
  {
    FixTitleCasingPasses(name);
  }

  /** The example of the repair's purpose: "Latin Extended-A And B" becomes
      "Latin Extended-A and B". (The strings are parameters so that the verifier reasons
      about them through the lemmas rather than by unfolding the functions on literals.) */
  lemma FixTitleCasingExample(name: string, repaired: string)
    requires name == "Latin Extended-A And B" && repaired == "Latin Extended-A and B"
    ensures FixTitleCasing(name) == repaired
  {
    LatinAndPass(name, repaired);
    NoForIn(repaired);
    assert RepairPass(repaired, " For ", " for ") == repaired;
    FixTitleCasingPasses(name);
  }

  lemma NoForIn(repaired: string)
    requires repaired == "Latin Extended-A and B"
    ensures !Contains(repaired, " For ")
  {
    assert forall i :: 0 <= i < |repaired| ==> repaired[i] != 'F';
    NoFor(repaired);
  }

  lemma LatinAndPass(name: string, repaired: string)
    requires name == "Latin Extended-A And B" && repaired == "Latin Extended-A and B"
    ensures RepairPass(name, " And ", " and ") == repaired
  {
    var a := "Latin Extended-A";
    assert a + " And " + "B" == name && a + " and " + "B" == repaired;
    var head := "Latin Extended-";
    assert 'A' !in head;
    forall i | 0 <= i < |a| ensures !OccursAt(name, " And ", i) {
      if i < 14 {
        assert name[i + 1] == head[i + 1];
        assert name[i..i + 5][1] == name[i + 1];
      } else {
        assert name[i..i + 5][0] == name[i];
      }
    }
    NoFor("B");
    PassOnce(a, " And ", " and ", "B");
  }

  /** The repair is not idempotent: with two adjacent occurrences that share a space, the
      non-overlapping replacement leaves the second " And " for another pass. */
  lemma FixTitleCasingNotIdempotent(name: string, once: string, twice: string)
    requires name == "x And And y" && once == "x and And y" && twice == "x and and y"
    ensures FixTitleCasing(name) == once
    ensures FixTitleCasing(FixTitleCasing(name)) == twice
  {
    FirstAndPass(name, once);
    SecondAndPass(once, twice);
    FixTitleCasingPasses(name);
    FixTitleCasingPasses(once);
    NoFor(once);
    NoFor(twice);
    assert FixTitleCasing(name) == once;
  }

  lemma FirstAndPass(name: string, once: string)
    requires name == "x And And y" && once == "x and And y"
    ensures RepairPass(name, " And ", " and ") == once
  {
    var b := "And y";
    forall i | 0 <= i && i + 5 <= |b| ensures !OccursAt(b, " And ", i) {
      assert b[i..i + 5][0] == b[0];
    }
    ContainsIff(b, " And ");
    AndPassSingle("x", b);
    assert "x" + " And " + "And y" == name && "x" + " and " + "And y" == once;
  }

  lemma SecondAndPass(once: string, twice: string)
    requires once == "x and And y" && twice == "x and and y"
    ensures RepairPass(once, " And ", " and ") == twice
  {
    ContainsIff("y", " And ");
    AndPassSingle("x and", "y");
    assert "x and" + " And " + "y" == once && "x and" + " and " + "y" == twice;
  }

  /** The " And " pass on a string with one occurrence, after an `a` without 'A'. */
  lemma AndPassSingle(a: string, b: string)
    requires 'A' !in a && !Contains(b, " And ")
    ensures RepairPass(a + " And " + b, " And ", " and ") == a + " and " + b
  {
    NoEarlyOccurrence(a, " And ", b);
    PassOnce(a, " And ", " and ", b);
  }

  /** A pass over a string with exactly one occurrence of `pat`, between `a` and `b`. */
  lemma PassOnce(a: string, pat: string, rep: string, b: string)
    requires |pat| > 0
    requires forall i :: 0 <= i < |a| ==> !OccursAt(a + pat + b, pat, i)
    requires !Contains(b, pat)
    ensures RepairPass(a + pat + b, pat, rep) == a + rep + b
  {
    var s := a + pat + b;
    assert s[|a|..|a| + |pat|] == pat;
    assert OccursAt(s, pat, |a|);
    ContainsIff(s, pat);
    ReplaceOnce(a, pat, rep, b);
  }

  /** An occurrence of `pat` cannot start inside `a` when the second character of `pat`
      is not in `a` and differs from the first. */
  lemma NoEarlyOccurrence(a: string, pat: string, b: string)
    requires |pat| >= 2 && pat[1] !in a && pat[1] != pat[0]
    ensures forall i :: 0 <= i < |a| ==> !OccursAt(a + pat + b, pat, i)
  {
    var s := a + pat + b;
    forall i | 0 <= i < |a| ensures !OccursAt(s, pat, i) {
      if i + 1 < |a| {
        assert s[i + 1] == a[i + 1];
      } else {
        assert s[i + 1] == pat[0];
      }
      if i + |pat| <= |s| {
        assert s[i..i + |pat|][1] == s[i + 1];
      }
    }
  }

  /** Replacement in a string with exactly one occurrence, placed between `a` and `b`. */
  lemma {:induction false} ReplaceOnce(a: string, pat: string, rep: string, b: string)
    requires |pat| > 0
    requires forall i :: 0 <= i < |a| ==> !OccursAt(a + pat + b, pat, i)
    requires !Contains(b, pat)
    ensures ReplaceAll(a + pat + b, pat, rep) == a + rep + b
    decreases |a|
  {
    if |a| == 0 {
      ReplaceAtStart(pat, rep, b);
    } else {
      ReplaceSkipsFirst(a, pat, rep, b);
      var s, t := a + pat + b, a[1..] + pat + b;
      forall i | 0 <= i < |a[1..]| ensures !OccursAt(t, pat, i) {
        assert s[1..] == t;
        ShiftOccurs(s, pat, 1, i);
      }
      ReplaceOnce(a[1..], pat, rep, b);
      assert a + rep + b == [a[0]] + (a[1..] + rep + b);
    }
  }

  lemma ReplaceAtStart(pat: string, rep: string, b: string)
    requires |pat| > 0
    requires !Contains(b, pat)
    ensures ReplaceAll(pat + b, pat, rep) == rep + b
  {
    var s := pat + b;
    assert s[..|pat|] == pat && s[|pat|..] == b;
    ReplaceAllAbsent(b, pat, rep);
  }

  lemma ReplaceSkipsFirst(a: string, pat: string, rep: string, b: string)
    requires |pat| > 0 && |a| > 0
    requires !OccursAt(a + pat + b, pat, 0)
    ensures ReplaceAll(a + pat + b, pat, rep) == [a[0]] + ReplaceAll(a[1..] + pat + b, pat, rep)
  {
    var s := a + pat + b;
    assert s[1..] == a[1..] + pat + b;
    assert s[..|pat|] != pat;
  }

  /** A name without the letter 'F' has no " For " in it. */
  lemma NoFor(s: string)
    requires 'F' !in s
    ensures !Contains(s, " For ")
  {
    forall i | 0 <= i && i + 5 <= |s| ensures !OccursAt(s, " For ", i) {
      assert s[i..i + 5][1] == s[i + 1];
    }
    ContainsIff(s, " For ");
  }
}
