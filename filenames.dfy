/**
 * `generate_filename`: the canonical name of a matched payslip,
 * "<last two digits of the code> <given name> <surname> BULLETIN DE SALAIRE <period>".
 */
module Filenames {
  import opened Text

  // ---------------------------------------------------------------- the code suffix

  /** `re.findall(r'\d+', s[from..])`: the maximal runs of digits, in order. */
  function DigitRunsFrom(s: string, from: nat): (runs: seq<string>)
    requires from <= |s|
    ensures forall i :: 0 <= i < |runs| ==> runs[i] != [] && AllDigits(runs[i])
    decreases |s| - from
  {
    if from == |s| then []
    else if !IsDigit(s[from]) then DigitRunsFrom(s, from + 1)
    else
      var n := DigitRun(s, from);
      [s[from..from + n]] + DigitRunsFrom(s, from + n)
  }

  /** `re.findall(r'\d+', s)`. */
  function DigitRuns(s: string): seq<string> {
    DigitRunsFrom(s, 0)
  }

  /** `run[-2:]`: the last two characters, or the whole run when it is shorter. */
  function LastTwo(run: string): string {
    if |run| <= 2 then run else run[|run| - 2..]
  }

  /** `digits[-1][-2:] if digits else "00"`. */
  function LastDigits(code: string): (r: string)
    ensures 1 <= |r| <= 2 && AllDigits(r)
  {
    var runs := DigitRuns(code);
    if runs == [] then "00" else LastTwo(runs[|runs| - 1])
  }

  lemma {:induction false} NoDigitRuns(s: string, from: nat)
    requires from <= |s|
    requires forall k :: from <= k < |s| ==> !IsDigit(s[k])
    ensures DigitRunsFrom(s, from) == []
    decreases |s| - from
  {
    if from < |s| {
      NoDigitRuns(s, from + 1);
    }
  }

  /**
   * The last of `runs` is the maximal run of digits of `s[from..]` that ends
   * at `j`: it starts at `from` or right after a non-digit, and is longer than
   * one digit exactly when `s[j - 1]`, at or after `from`, is a digit too.
   */
  predicate LastRunEndsAt(s: string, from: nat, j: nat, runs: seq<string>)
    requires j < |s|
  {
    runs != [] &&
    var r := runs[|runs| - 1];
    1 <= |r| <= j + 1 - from && r == s[j + 1 - |r|..j + 1] && AllDigits(r) &&
    (j + 1 - |r| == from || !IsDigit(s[j - |r|])) &&
    (|r| >= 2 <==> j > from && IsDigit(s[j - 1]))
  }

  /**
   * The last run found by `findall` on `s[from..]` is the run that ends at
   * the last digit `j` of `s`; it reaches back past `j` exactly when `s[j - 1]`
   * is a digit inside the searched part.
   */
  lemma {:induction false} LastRunEndsAtLastDigit(s: string, from: nat, j: nat)
    requires from <= j < |s| && IsDigit(s[j])
    requires forall k :: j < k < |s| ==> !IsDigit(s[k])
    ensures LastRunEndsAt(s, from, j, DigitRunsFrom(s, from))
    decreases |s| - from
  {
    if !IsDigit(s[from]) {
      LastRunEndsAtLastDigit(s, from + 1, j);
      LastRunAfterNonDigit(s, from, j);
    } else if j < from + DigitRun(s, from) {
      LastRunIsFirst(s, from, j);
    } else {
      var n := DigitRun(s, from);
      assert j != from + n;
      LastRunEndsAtLastDigit(s, from + n, j);
      LastRunAfterRun(s, from, j);
    }
  }

  /** A non-digit at `from` is skipped: the last run is the one found from `from + 1`. */
  lemma LastRunAfterNonDigit(s: string, from: nat, j: nat)
    requires from < j < |s| && !IsDigit(s[from])
    requires LastRunEndsAt(s, from + 1, j, DigitRunsFrom(s, from + 1))
    ensures LastRunEndsAt(s, from, j, DigitRunsFrom(s, from))
  {
    assert DigitRunsFrom(s, from) == DigitRunsFrom(s, from + 1);
  }

  /** A run that starts at `from` and stops before `j` is followed by the last run. */
  lemma LastRunAfterRun(s: string, from: nat, j: nat)
    requires from < |s| && IsDigit(s[from]) && from + DigitRun(s, from) < j < |s|
    requires LastRunEndsAt(s, from + DigitRun(s, from), j, DigitRunsFrom(s, from + DigitRun(s, from)))
    ensures LastRunEndsAt(s, from, j, DigitRunsFrom(s, from))
  {
    var n := DigitRun(s, from);
    var rest := DigitRunsFrom(s, from + n);
    var runs := DigitRunsFrom(s, from);
    assert runs == [s[from..from + n]] + rest;
    assert runs[|runs| - 1] == rest[|rest| - 1];
    assert !IsDigit(s[from + n]);
  }

  /** A digit run that covers the last digit of `s` ends right after it. */
  lemma RunEndsAtLastDigit(s: string, from: nat, j: nat)
    requires from <= j < |s|
    requires forall k :: j < k < |s| ==> !IsDigit(s[k])
    requires j < from + DigitRun(s, from)
    ensures from + DigitRun(s, from) == j + 1
  {
    if j + 1 < |s| {
      DigitRunStops(s, from, j + 1);
    }
  }

  /** A digit run stops at the first non-digit after its start. */
  lemma {:induction false} DigitRunStops(s: string, from: nat, m: nat)
    requires from <= m < |s| && !IsDigit(s[m])
    ensures from + DigitRun(s, from) <= m
    decreases m - from
  {
    if from < m && IsDigit(s[from]) {
      DigitRunStops(s, from + 1, m);
    }
  }

  /** The case of `LastRunEndsAtLastDigit` where the run starting at `from` holds the last digit. */
  lemma LastRunIsFirst(s: string, from: nat, j: nat)
    requires from <= j < |s| && IsDigit(s[from]) && IsDigit(s[j])
    requires forall k :: j < k < |s| ==> !IsDigit(s[k])
    requires j < from + DigitRun(s, from)
    ensures DigitRunsFrom(s, from) == [s[from..j + 1]]
    ensures j > from ==> IsDigit(s[j - 1])
  {
    RunEndsAtLastDigit(s, from, j);
    NoDigitRuns(s, j + 1);
    assert DigitRunsFrom(s, from) == [s[from..j + 1]] + DigitRunsFrom(s, j + 1);
  }

  /** The last two characters of the run that ends at `j`. */
  lemma LastTwoOfRun(s: string, j: nat, runs: seq<string>)
    requires j < |s| && LastRunEndsAt(s, 0, j, runs)
    ensures runs != []
    ensures LastTwo(runs[|runs| - 1]) == if j > 0 && IsDigit(s[j - 1]) then s[j - 1..j + 1] else s[j..j + 1]
  {
  }

  /**
   * The prefix is the last one or two characters of the digit run that ends
   * at the last digit `j`: two when the character before `j` is a digit too.
   */
  lemma LastDigitsAtLastDigit(code: string, j: nat)
    requires j < |code| && IsDigit(code[j])
    requires forall k :: j < k < |code| ==> !IsDigit(code[k])
    ensures LastDigits(code) == if j > 0 && IsDigit(code[j - 1]) then code[j - 1..j + 1] else code[j..j + 1]
  {
    LastRunEndsAtLastDigit(code, 0, j);
    LastTwoOfRun(code, j, DigitRuns(code));
  }


  /** A code without any digit gets the prefix "00". */
  lemma LastDigitsWithoutDigits(code: string)
    requires forall k :: 0 <= k < |code| ==> !IsDigit(code[k])
    ensures LastDigits(code) == "00"
  {
    NoDigitRuns(code, 0);
  }

  /**
   * For an extracted code, "PERC" then digits, the prefix is its last two
   * digits, or its only digit: "PERC5" gives "5".
   */
  lemma LastDigitsOfCode(code: string)
    requires |code| >= 5 && code[..4] == "PERC"
    requires forall k :: 4 <= k < |code| ==> IsDigit(code[k])
    ensures LastDigits(code) == if |code| >= 6 then code[|code| - 2..] else code[4..]
  {
    var j := |code| - 1;
    assert code[3] == code[..4][3] == 'C';
    LastDigitsAtLastDigit(code, j);
  }

  // ---------------------------------------------------------------- the name

  /** The characters `[^a-zA-Z0-9\s]` does not remove. */
  predicate Allowed(c: char) { IsAsciiLetter(c) || IsDigit(c) || IsSpace(c) }

  /** `re.sub(r'[^a-zA-Z0-9\s]', '', name)`. */
  function KeepAllowed(name: string): (r: string)
    ensures |r| <= |name|
    ensures forall k :: 0 <= k < |r| ==> Allowed(r[k])
  {
    if name == [] then []
    else (if Allowed(name[0]) then [name[0]] else []) + KeepAllowed(name[1..])
  }

  /** `safe_name`: the allowed characters, upper-cased. */
  function Sanitize(name: string): (r: string)
    ensures |r| <= |name|
    ensures forall k :: 0 <= k < |r| ==> 'A' <= r[k] <= 'Z' || IsDigit(r[k]) || IsSpace(r[k])
  {
    Upper(KeepAllowed(name))
  }

  lemma {:induction false} KeepAllowedOfAllowed(name: string)
    requires forall k :: 0 <= k < |name| ==> Allowed(name[k])
    ensures KeepAllowed(name) == name
  {
    if name != [] {
      KeepAllowedOfAllowed(name[1..]);
    }
  }

  /** A name made only of letters, digits and whitespace is only upper-cased. */
  lemma SanitizeAllowed(name: string)
    requires forall k :: 0 <= k < |name| ==> Allowed(name[k])
    ensures Sanitize(name) == Upper(name)
  {
    KeepAllowedOfAllowed(name);
  }

  /** Sanitising twice changes nothing more. */
  lemma SanitizeIdempotent(name: string)
    ensures Sanitize(Sanitize(name)) == Sanitize(name)
  {
    var s := Sanitize(name);
    SanitizeAllowed(s);
    assert Upper(s) == s;
  }

  /**
   * `formatted_name`: with two or more words, the last word then the first
   * ("KOFFI NGUESSAN HERVE" is "HERVE KOFFI"); otherwise the sanitised string
   * as it is, unsplit and untrimmed.
   */
  function FormatName(safe: string): string {
    Reorder(Split(safe), safe)
  }

  /** `formatted_name` from the words `parts` of `safe`. */
  function Reorder(parts: seq<string>, safe: string): string {
    if |parts| >= 2 then parts[|parts| - 1] + " " + parts[0] else safe
  }

  /** Two or more words: the reordered name splits into exactly the last word and the first. */
  lemma SplitReordered(parts: seq<string>, safe: string)
    requires |parts| >= 2 && IsWord(parts[|parts| - 1]) && IsWord(parts[0])
    ensures Split(Reorder(parts, safe)) == [parts[|parts| - 1], parts[0]]
  {
    SplitTwoWords(parts[|parts| - 1], parts[0]);
  }

  /** With two or more words the formatted name is exactly two words: the last, then the first. */
  lemma FormatNameTwoWords(safe: string)
    requires |Split(safe)| >= 2
    ensures var parts := Split(safe); Split(FormatName(safe)) == [parts[|parts| - 1], parts[0]]
  {
    SplitWords(safe);
    SplitReordered(Split(safe), safe);
  }

  /** With fewer than two words the sanitised name is used as it is, surrounding whitespace included. */
  lemma FormatNameFewWords(safe: string)
    requires |Split(safe)| < 2
    ensures FormatName(safe) == safe
  {
  }

  // ---------------------------------------------------------------- the file name

  const Label: string := " BULLETIN DE SALAIRE "

  /**
   * The template "<prefix> <middle><suffix>" can be read back: the prefix, a
   * space, the middle and the suffix sit at fixed places.
   */
  lemma TemplateShape(prefix: string, middle: string, suffix: string)
    ensures var r := prefix + " " + middle + suffix;
      |prefix| < |r| && r[..|prefix|] == prefix && r[|prefix|] == ' ' &&
      |prefix| + 1 + |suffix| <= |r| && r[|prefix| + 1..|r| - |suffix|] == middle &&
      r[|r| - |suffix|..] == suffix
  {
    var r := prefix + " " + middle + suffix;
    assert r == prefix + (" " + middle + suffix);
    assert r[|prefix| + 1..|r| - |suffix|] == middle;
  }

  /** `generate_filename(matricule, name, period)`, without the ".pdf" the caller adds. */
  function GenerateFilename(code: string, name: string, period: string): (r: string)
    ensures var n := |LastDigits(code)|; n < |r| && r[..n] == LastDigits(code) && r[n] == ' '
    ensures var n, m := |LastDigits(code)|, |r| - |Label + period|;
      n + 1 <= m && r[n + 1..m] == FormatName(Sanitize(name))
    ensures |Label + period| <= |r| && r[|r| - |Label + period|..] == Label + period
  {
    var prefix := LastDigits(code);
    var middle := FormatName(Sanitize(name));
    TemplateShape(prefix, middle, Label + period);
    prefix + " " + middle + (Label + period)
  }

  lemma {:induction false} KeepAllowedAppend(a: string, b: string)
    ensures KeepAllowed(a + b) == KeepAllowed(a) + KeepAllowed(b)
  {
    if a == [] {
      assert a + b == b;
    } else {
      assert (a + b)[0] == a[0];
      assert (a + b)[1..] == a[1..] + b;
      KeepAllowedAppend(a[1..], b);
    }
  }

  /** Sanitising removes a forbidden character between two allowed stretches, and only it. */
  lemma SanitizeRemovesOne(name: string, a: string, c: char, b: string)
    requires name == a + [c] + b
    requires forall k :: 0 <= k < |a| ==> Allowed(a[k])
    requires !Allowed(c)
    requires forall k :: 0 <= k < |b| ==> Allowed(b[k])
    ensures Sanitize(name) == Upper(a + b)
  {
    assert KeepAllowed([c]) == [] by {
      assert [c][1..] == [];
    }
    assert KeepAllowed([c] + b) == b by {
      KeepAllowedAppend([c], b);
      KeepAllowedOfAllowed(b);
    }
    assert KeepAllowed(a + [c] + b) == a + b by {
      assert a + [c] + b == a + ([c] + b);
      KeepAllowedAppend(a, [c] + b);
      KeepAllowedOfAllowed(a);
    }
  }

  /** The apostrophe of "KOFFI N'GUESSAN HERVE" is removed; the rest is already upper case. */
  lemma SanitizeExample(name: string)
    requires name == "KOFFI N'GUESSAN HERVE"
    ensures Sanitize(name) == "KOFFI NGUESSAN HERVE"
  {
    var a, b := "KOFFI N", "GUESSAN HERVE";
    ApostropheSplits(name, a, b);
    ApostropheNeighbours(a, b);
    ApostropheUpper(a, b);
    SanitizeRemovesOne(name, a, '\'', b);
  }

  lemma ApostropheSplits(name: string, a: string, b: string)
    requires name == "KOFFI N'GUESSAN HERVE" && a == "KOFFI N" && b == "GUESSAN HERVE"
    ensures name == a + ['\''] + b && !Allowed('\'')
  {
  }

  lemma ApostropheNeighbours(a: string, b: string)
    requires a == "KOFFI N" && b == "GUESSAN HERVE"
    ensures forall k :: 0 <= k < |a| ==> Allowed(a[k])
    ensures forall k :: 0 <= k < |b| ==> Allowed(b[k])
  {
  }

  lemma ApostropheUpper(a: string, b: string)
    requires a == "KOFFI N" && b == "GUESSAN HERVE"
    ensures Upper(a + b) == "KOFFI NGUESSAN HERVE"
  {
  }

  /** Three words: the middle one is dropped and the last comes first. */
  lemma FormatNameThreeWords(safe: string, w1: string, w2: string, w3: string)
    requires IsWord(w1) && IsWord(w2) && IsWord(w3)
    requires safe == w1 + " " + w2 + " " + w3
    ensures FormatName(safe) == w3 + " " + w1
  {
    assert safe == w1 + (" " + (w2 + " " + w3));
    SplitCons(w1, " " + (w2 + " " + w3));
    assert (" " + (w2 + " " + w3))[1..] == w2 + " " + w3;
    SplitTwoWords(w2, w3);
    assert Split(safe) == [w1, w2, w3];
  }

  /** "KOFFI NGUESSAN HERVE" has three words; the name keeps the last and the first. */
  lemma FormatNameExample(safe: string)
    requires safe == "KOFFI NGUESSAN HERVE"
    ensures FormatName(safe) == "HERVE KOFFI"
  {
    var w1, w2, w3 := "KOFFI", "NGUESSAN", "HERVE";
    ExampleWords(w1, w2, w3);
    FormatNameThreeWords(safe, w1, w2, w3);
  }

  lemma ExampleWords(w1: string, w2: string, w3: string)
    requires w1 == "KOFFI" && w2 == "NGUESSAN" && w3 == "HERVE"
    ensures IsWord(w1) && IsWord(w2) && IsWord(w3)
    ensures w1 + " " + w2 + " " + w3 == "KOFFI NGUESSAN HERVE"
    ensures w3 + " " + w1 == "HERVE KOFFI"
  {
  }

  /** "PERC001" gets the prefix "01". */
  lemma LastDigitsExample(code: string)
    requires code == "PERC001"
    ensures LastDigits(code) == "01"
  {
    LastDigitsOfCode(code);
    assert code[5..] == "01";
  }

  /** "KOFFI N'GUESSAN HERVE" is filed as "HERVE KOFFI". */
  lemma NameExample(name: string)
    requires name == "KOFFI N'GUESSAN HERVE"
    ensures FormatName(Sanitize(name)) == "HERVE KOFFI"
  {
    SanitizeExample(name);
    FormatNameExample(Sanitize(name));
  }

  /** The name is the digits, the formatted name, the fixed label and the period, in that order. */
  lemma FilenameParts(code: string, name: string, period: string, prefix: string, formatted: string)
    requires LastDigits(code) == prefix && FormatName(Sanitize(name)) == formatted
    ensures GenerateFilename(code, name, period) == prefix + " " + formatted + Label + period
  {
  }

  /** The worked example of the source: "KOFFI N'GUESSAN HERVE" of code PERC001 for October 2025. */
  lemma FilenameExample(code: string, name: string, period: string)
    requires code == "PERC001" && name == "KOFFI N'GUESSAN HERVE" && period == "OCT25"
    ensures GenerateFilename(code, name, period) == "01 HERVE KOFFI BULLETIN DE SALAIRE OCT25"
  {
    LastDigitsExample(code);
    NameExample(name);
    FilenameParts(code, name, period, "01", "HERVE KOFFI");
    ExampleText();
  }

  lemma ExampleText()
    ensures "01" + " " + "HERVE KOFFI" + Label + "OCT25" == "01 HERVE KOFFI BULLETIN DE SALAIRE OCT25"
  {
  }
}
