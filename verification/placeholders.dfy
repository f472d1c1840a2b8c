/** The older page's `replacements`: four `%placeholder%` spellings that the service
    translates into Cyrillic units are put back, each pattern replaced everywhere with a
    global, case-insensitive regular expression. */
module Placeholders {
  import opened Wrappers

  /** Case-insensitive comparison without the `u` flag matches two characters when their
      upper-case forms agree. Only the letters of the four patterns matter here: `С`
      and `ᲃ` (U+1C83, a variant of `с`) fold to `с`, and `М`, `К`, `Г` to their lower
      case; every other character stands for itself. */
  function Fold(c: char): char {
    if c == 'С' || c == 'ᲃ' then 'с'
    else if c == 'М' then 'м'
    else if c == 'К' then 'к'
    else if c == 'Г' then 'г'
    else c
  }

  /** The pattern `p`, written in lower case, matches at the start of `t`. */
  predicate MatchesAt(t: string, p: string) {
    |t| >= |p| && forall k :: 0 <= k < |p| ==> Fold(t[k]) == p[k]
  }

  /** `s.replace(new RegExp(p, 'gi'), r)` for a literal pattern: scanning left to right,
      each match is replaced and scanning resumes after it, so matches never overlap. */
  function ReplaceAll(s: string, p: string, r: string): string
    requires |p| > 0
    decreases |s|
  {
    if s == [] then []
    else if MatchesAt(s, p) then r + ReplaceAll(s[|p|..], p, r)
    else [s[0]] + ReplaceAll(s[1..], p, r)
  }

  /** The four corrections, applied in this order. */
  const Corrections: seq<(string, string)> := [
    ("%см%", "%cm%"),
    ("% см%", "%cm%"),
    ("%кг%", "%kg%"),
    ("% кг%", "%kg%")
  ]

  function ApplyAll(s: string, rules: seq<(string, string)>): string
    requires forall i :: 0 <= i < |rules| ==> |rules[i].0| > 0
    decreases |rules|
  {
    if rules == [] then s else ApplyAll(ReplaceAll(s, rules[0].0, rules[0].1), rules[1..])
  }

  /** `replacements(string)`: a missing or empty translation becomes the empty text. */
  function Replacements(x: Option<string>): (t: string)
    ensures x.None? ==> t == ""
  {
    if x.None? || x.value == "" then "" else ApplyAll(x.value, Corrections)
  }

  /** A text in which some character of the pattern never occurs is left as it is. */
  lemma {:induction false} ReplaceAllWithoutChar(s: string, p: string, r: string, j: nat)
    requires j < |p|
    requires forall i :: 0 <= i < |s| ==> Fold(s[i]) != p[j]
    ensures ReplaceAll(s, p, r) == s
    decreases |s|
  {
    if s != [] {
      if |s| >= |p| {
        assert Fold(s[j]) != p[j];
      }
      ReplaceAllWithoutChar(s[1..], p, r, j);
      assert s == [s[0]] + s[1..];
    }
  }

  /** A text in which no match starts is left as it is. */
  lemma {:induction false} ReplaceAllWithoutMatch(s: string, p: string, r: string)
    requires |p| > 0
    requires forall k :: 0 <= k < |s| ==> !MatchesAt(s[k..], p)
    ensures ReplaceAll(s, p, r) == s
    decreases |s|
  {
    if s != [] {
      assert s[0..] == s;
      forall k | 0 <= k < |s| - 1 ensures !MatchesAt(s[1..][k..], p) {
        assert s[1..][k..] == s[k + 1..];
      }
      ReplaceAllWithoutMatch(s[1..], p, r);
      assert s == [s[0]] + s[1..];
    }
  }

  /** The leftmost match `m` is replaced, the text `a` before it is kept, and scanning
      resumes after the match: every match that does not overlap an earlier one is
      replaced, and nothing else changes. */
  lemma {:induction false} ReplaceAllLeftmost(a: string, m: string, b: string, p: string, r: string)
    requires |p| > 0 && |m| == |p| && MatchesAt(m + b, p)
    requires forall k :: 0 <= k < |a| ==> !MatchesAt((a + m + b)[k..], p)
    ensures ReplaceAll(a + m + b, p, r) == a + r + ReplaceAll(b, p, r)
    decreases |a|
  {
    var s := a + m + b;
    if a == [] {
      assert s == m + b;
      assert s[|p|..] == b;
      assert a + r + ReplaceAll(b, p, r) == r + ReplaceAll(b, p, r);
    } else {
      assert s[0..] == s;
      assert s[1..] == a[1..] + m + b;
      forall k | 0 <= k < |a| - 1 ensures !MatchesAt((a[1..] + m + b)[k..], p) {
        assert (a[1..] + m + b)[k..] == s[k + 1..];
      }
      ReplaceAllLeftmost(a[1..], m, b, p, r);
      assert a + r + ReplaceAll(b, p, r) == [a[0]] + (a[1..] + r + ReplaceAll(b, p, r));
    }
  }

  /** A match that overlaps a replaced one is not replaced: scanning resumes after the
      replaced text, so `%см%см%` keeps its second `см%`. */
  lemma ReplaceAllResumesAfterMatch()
    ensures ReplaceAll("%см%см%", "%см%", "%cm%") == "%cm%см%"
  {
    ReplaceAllLeftmost("", "%см%", "см%", "%см%", "%cm%");
    assert "" + "%см%" + "см%" == "%см%см%";
    ReplaceAllShort("см%", "%см%", "%cm%");
  }

  /** A text shorter than the pattern is left as it is. */
  lemma {:induction false} ReplaceAllShort(s: string, p: string, r: string)
    requires |s| < |p|
    ensures ReplaceAll(s, p, r) == s
    decreases |s|
  {
    if s != [] {
      ReplaceAllShort(s[1..], p, r);
      assert s == [s[0]] + s[1..];
    }
  }

  /** A replacement no longer than its pattern never makes the text longer. */
  lemma {:induction false} ReplaceAllNeverLengthens(s: string, p: string, r: string)
    requires 0 < |p| && |r| <= |p|
    ensures |ReplaceAll(s, p, r)| <= |s|
    decreases |s|
  {
    if s != [] {
      if MatchesAt(s, p) {
        ReplaceAllNeverLengthens(s[|p|..], p, r);
      } else {
        ReplaceAllNeverLengthens(s[1..], p, r);
      }
    }
  }

  lemma {:induction false} ApplyAllWithoutPercent(s: string, rules: seq<(string, string)>)
    requires forall i :: 0 <= i < |rules| ==> |rules[i].0| > 0 && rules[i].0[0] == '%'
    requires '%' !in s
    ensures ApplyAll(s, rules) == s
    decreases |rules|
  {
    if rules != [] {
      forall i | 0 <= i < |s| ensures Fold(s[i]) != '%' {
        assert s[i] in s;
      }
      ReplaceAllWithoutChar(s, rules[0].0, rules[0].1, 0);
      ApplyAllWithoutPercent(s, rules[1..]);
    }
  }

  lemma {:induction false} ApplyAllNeverLengthens(s: string, rules: seq<(string, string)>)
    requires forall i :: 0 <= i < |rules| ==> 0 < |rules[i].1| <= |rules[i].0|
    ensures |ApplyAll(s, rules)| <= |s|
    decreases |rules|
  {
    if rules != [] {
      ReplaceAllNeverLengthens(s, rules[0].0, rules[0].1);
      ApplyAllNeverLengthens(ReplaceAll(s, rules[0].0, rules[0].1), rules[1..]);
    }
  }

  /** Text without a `%` passes through unchanged, and no text gets longer. */
  lemma ReplacementsKeepPlainText(s: string)
    ensures '%' !in s ==> Replacements(Some(s)) == s
    ensures |Replacements(Some(s))| <= |s|
  {
    if s != "" {
      if '%' !in s {
        ApplyAllWithoutPercent(s, Corrections);
      }
      ApplyAllNeverLengthens(s, Corrections);
    }
  }

  /** Once `%см%` (in any case) has become `%cm%`, the later corrections leave it alone. */
  lemma LaterCorrectionsKeepCm()
    ensures ApplyAll("%cm%", Corrections[1..]) == "%cm%"
  {
    var s := "%cm%";
    var rest := Corrections[1..];
    ReplaceAllWithoutChar(s, rest[0].0, rest[0].1, 1);
    ReplaceAllWithoutChar(s, rest[1].0, rest[1].1, 1);
    ReplaceAllWithoutChar(s, rest[2].0, rest[2].1, 1);
    assert ApplyAll(s, rest) == ApplyAll(s, rest[1..]);
    assert ApplyAll(s, rest[1..]) == ApplyAll(s, rest[2..]);
    assert ApplyAll(s, rest[2..]) == ApplyAll(s, []);
  }

  /** Lower-case, upper-case and variant spellings of `%см%` are all restored. */
  lemma ReplacementsRestoreCm()
    ensures Replacements(Some("%см%")) == "%cm%"
    ensures Replacements(Some("%СМ%")) == "%cm%"
    ensures Replacements(Some("%ᲃм%")) == "%cm%"
  {
    LaterCorrectionsKeepCm();
    ReplaceAllShort("", "%см%", "%cm%");
    assert MatchesAt("%см%", "%см%");
    assert MatchesAt("%СМ%", "%см%");
    assert MatchesAt("%ᲃм%", "%см%");
    assert "%см%"[4..] == "" && "%СМ%"[4..] == "" && "%ᲃм%"[4..] == "";
    assert Corrections[0] == ("%см%", "%cm%");
    assert ReplaceAll("%см%", "%см%", "%cm%") == "%cm%" + ReplaceAll("", "%см%", "%cm%");
    assert ReplaceAll("%см%", "%см%", "%cm%") == "%cm%";
    assert ApplyAll("%см%", Corrections) == ApplyAll(ReplaceAll("%см%", "%см%", "%cm%"), Corrections[1..]);
    assert ApplyAll("%см%", Corrections) == ApplyAll("%cm%", Corrections[1..]);
    assert ApplyAll("%СМ%", Corrections) == ApplyAll("%cm%", Corrections[1..]);
    assert ApplyAll("%ᲃм%", Corrections) == ApplyAll("%cm%", Corrections[1..]);
  }

  /** The spaced spelling `% кг%` is restored to `%kg%`. */
  lemma ReplacementsRestoreSpacedKg()
    ensures Replacements(Some("% кг%")) == "%kg%"
  {
    var s := "% кг%";
    ReplaceAllWithoutChar(s, Corrections[0].0, Corrections[0].1, 1);
    ReplaceAllWithoutChar(s, Corrections[1].0, Corrections[1].1, 2);
    // `%кг%` does not match at the first two positions and the rest is too short
    assert !MatchesAt(s, "%кг%") by { assert Fold(s[1]) != "%кг%"[1]; }
    assert !MatchesAt(s[1..], "%кг%") by { assert Fold(s[1..][0]) != "%кг%"[0]; }
    ReplaceAllShort(s[2..], "%кг%", "%kg%");
    assert s[1..][1..] == s[2..];
    assert ReplaceAll(s, "%кг%", "%kg%") == s;
    assert MatchesAt(s, "% кг%");
    ReplaceAllShort(s[5..], "% кг%", "%kg%");
  }
}
