/**
 * `extract_info_from_text`: recovers the employee code ("matricule") and the
 * pay-period label from the text of one payslip page.
 *
 * The two regular expressions of the source are written out by hand:
 * `PERCO?\d+` (searched, leftmost match) and `(\d{2})/(\d{2})/(\d{2})` (all
 * matches, of which only the first is used).
 */
module PageText {
  import opened Wrappers
  import opened Text

  // ---------------------------------------------------------------- the code pattern

  /**
   * `PERCO?\d+` matches at `i`: "PERC", then a digit, or the letter O
   * followed by a digit. (The `O?` is greedy and a letter is never a digit,
   * so the two cases never overlap.)
   */
  predicate CodeAt(text: string, i: nat) {
    i + 5 <= |text| && text[i..i + 4] == "PERC" &&
    (IsDigit(text[i + 4]) || (text[i + 4] == 'O' && i + 6 <= |text| && IsDigit(text[i + 5])))
  }

  /** Where the `\d+` of a match at `i` starts: right after "PERC" or "PERCO". */
  function DigitsStart(text: string, i: nat): (d: nat)
    requires CodeAt(text, i)
    ensures d == i + 4 || d == i + 5
    ensures d == i + 5 <==> text[i + 4] == 'O'
    ensures d < |text| && IsDigit(text[d])
  {
    if IsDigit(text[i + 4]) then i + 4 else i + 5
  }

  /** Where the match at `i` ends: `\d+` is greedy, so after the whole digit run. */
  function CodeEnd(text: string, i: nat): (e: nat)
    requires CodeAt(text, i)
    ensures DigitsStart(text, i) < e <= |text|
    ensures forall k :: DigitsStart(text, i) <= k < e ==> IsDigit(text[k])
    ensures e == |text| || !IsDigit(text[e])
  {
    DigitsStart(text, i) + DigitRun(text, DigitsStart(text, i))
  }

  /** `re.search`: the smallest index at or after `from` where the pattern matches. */
  function FindCode(text: string, from: nat): (r: Option<nat>)
    ensures r.Some? ==> from <= r.value && CodeAt(text, r.value)
    ensures r.Some? ==> forall j :: from <= j < r.value ==> !CodeAt(text, j)
    ensures r.None? ==> forall j :: from <= j ==> !CodeAt(text, j)
    decreases |text| - from
  {
    if from + 5 > |text| then None
    else if CodeAt(text, from) then Some(from)
    else FindCode(text, from + 1)
  }

  /** A normalised code: "PERC" followed by one or more digits. */
  predicate IsCode(c: string) {
    |c| >= 5 && c[..4] == "PERC" && forall k :: 4 <= k < |c| ==> IsDigit(c[k])
  }

  /** `matricule.replace("O", "0")`. */
  function Normalize(code: string): (r: string)
    ensures |r| == |code| && 'O' !in r
    ensures forall k :: 0 <= k < |code| && code[k] != 'O' ==> r[k] == code[k]
  {
    ReplaceChar(code, 'O', '0')
  }

  /**
   * Normalising the matched text always yields "PERC" and digits: the only
   * letter O a match can hold is the optional one after "PERC", which turns
   * into the digit zero; every other character is kept.
   */
  lemma NormalizedMatch(text: string, i: nat)
    requires CodeAt(text, i)
    ensures var c := Normalize(text[i..CodeEnd(text, i)]);
      IsCode(c) && |c| == CodeEnd(text, i) - i &&
      c == "PERC" + (if text[i + 4] == 'O' then "0" else "") + text[DigitsStart(text, i)..CodeEnd(text, i)]
  {
    var e := CodeEnd(text, i);
    var d := DigitsStart(text, i);
    var m := text[i..e];
    var c := Normalize(m);
    var digits := text[d..e];
    var rest := "PERC" + (if text[i + 4] == 'O' then "0" else "") + digits;
    assert |rest| == |c|;
    forall k | 0 <= k < |c| ensures c[k] == rest[k] {
      assert m[k] == text[i + k];
      if k < 4 {
        assert text[i + k] == text[i..i + 4][k];
      } else if k >= d - i {
        assert rest[k] == digits[k - (d - i)];
      }
    }
    assert c == rest;
    assert c[..4] == "PERC";
  }

  // ---------------------------------------------------------------- the date pattern

  /** `(\d{2})/(\d{2})/(\d{2})` matches at `i`. */
  predicate DateAt(text: string, i: nat) {
    i + 8 <= |text| &&
    IsDigit(text[i]) && IsDigit(text[i + 1]) && text[i + 2] == '/' &&
    IsDigit(text[i + 3]) && IsDigit(text[i + 4]) && text[i + 5] == '/' &&
    IsDigit(text[i + 6]) && IsDigit(text[i + 7])
  }

  /**
   * The first element of `re.findall`: `findall` scans left to right, so its
   * first match is the one with the smallest start index.
   */
  function FindDate(text: string, from: nat): (r: Option<nat>)
    ensures r.Some? ==> from <= r.value && DateAt(text, r.value)
    ensures r.Some? ==> forall j :: from <= j < r.value ==> !DateAt(text, j)
    ensures r.None? ==> forall j :: from <= j ==> !DateAt(text, j)
    decreases |text| - from
  {
    if from + 8 > |text| then None
    else if DateAt(text, from) then Some(from)
    else FindDate(text, from + 1)
  }

  /** `month_map`: two-digit month number to its French abbreviation. */
  const MonthNames: map<string, string> := map[
    "01" := "JANV", "02" := "FEV", "03" := "MARS", "04" := "AVRIL",
    "05" := "MAI", "06" := "JUIN", "07" := "JUIL", "08" := "AOUT",
    "09" := "SEPT", "10" := "OCT", "11" := "NOV", "12" := "DEC"]

  /** `month_map.get(month, "MOIS")`. */
  function MonthName(month: string): (r: string)
    ensures r == "MOIS" <==> month !in MonthNames
    ensures 3 <= |r| <= 5
  {
    if month in MonthNames then MonthNames[month] else "MOIS"
  }

  /**
   * `period_str`: the month name of the first date followed by its two-digit
   * year, or "" when the text holds no date.
   */
  function Period(text: string): string {
    match FindDate(text, 0)
    case None => ""
    case Some(i) => MonthName(text[i + 3..i + 5]) + text[i + 6..i + 8]
  }

  // ---------------------------------------------------------------- the extractor

  /**
   * A successful extraction: `(None, None)` for an empty page, or a code and
   * a period. The source has no `(None, period)` outcome: that case raises.
   */
  datatype Info = NoText | Extracted(code: string, period: string)

  /** `None.replace(...)` raises `AttributeError` on a non-empty page without a code. */
  datatype ExtractError = NoCodeInText

  /**
   * `extract_info_from_text`. An empty page gives `(None, None)` before any
   * search; otherwise the leftmost code is normalised, and a page without one
   * is an error.
   */
  function ExtractInfo(text: string): (r: Result<Info, ExtractError>)
    ensures r == Ok(NoText) <==> text == []
    ensures r.Err? <==> text != [] && forall i :: !CodeAt(text, i)
    ensures r.Ok? && r.value.Extracted? ==> IsCode(r.value.code)
  {
    if text == [] then Ok(NoText)
    else
      match FindCode(text, 0)
      case None => Err(NoCodeInText)
      case Some(i) =>
        NormalizedMatch(text, i);
        Ok(Extracted(Normalize(text[i..CodeEnd(text, i)]), Period(text)))
  }

  // ---------------------------------------------------------------- properties

  /** The code reported is that of the leftmost match, normalised; the period is that of the page. */
  lemma ExtractLeftmost(text: string, i: nat)
    requires CodeAt(text, i)
    requires forall j :: 0 <= j < i ==> !CodeAt(text, j)
    ensures ExtractInfo(text) == Ok(Extracted(Normalize(text[i..CodeEnd(text, i)]), Period(text)))
  {
    assert FindCode(text, 0) == Some(i);
  }

  /** A dated page: the period comes from its first `dd/dd/dd`, month group then year group. */
  lemma PeriodOfFirstDate(text: string, i: nat)
    requires DateAt(text, i)
    requires forall j :: 0 <= j < i ==> !DateAt(text, j)
    ensures Period(text) == MonthName(text[i + 3..i + 5]) + text[i + 6..i + 8]
  {
    assert FindDate(text, 0) == Some(i);
  }

  /** The period is empty exactly when the page holds no date: a month name is never empty. */
  lemma PeriodEmpty(text: string)
    ensures Period(text) == "" <==> forall j :: !DateAt(text, j)
  {
    match FindDate(text, 0)
    case None =>
    case Some(i) =>
      assert |MonthName(text[i + 3..i + 5])| >= 3;
  }

  /** No date on the page: the period is the empty string, not `None`. */
  lemma PeriodWithoutDate(text: string)
    requires forall j :: 0 <= j ==> !DateAt(text, j)
    ensures Period(text) == ""
  {
    assert FindDate(text, 0).None?;
  }

  /**
   * The period ends in the two year digits of the first date, and starts
   * with the placeholder "MOIS" exactly when that date's month group is not
   * one of 01 to 12.
   */
  lemma PeriodShape(text: string, i: nat)
    requires DateAt(text, i)
    requires forall j :: 0 <= j < i ==> !DateAt(text, j)
    ensures var p := Period(text);
      |p| >= 2 && p[|p| - 2..] == text[i + 6..i + 8] && AllDigits(p[|p| - 2..]) &&
      (|p| >= 6 && p[..4] == "MOIS" <==> text[i + 3..i + 5] !in MonthNames)
  {
    PeriodOfFirstDate(text, i);
    var p := Period(text);
    var m := MonthName(text[i + 3..i + 5]);
    assert p == m + text[i + 6..i + 8];
    assert p[..|m|] == m;
    if text[i + 3..i + 5] in MonthNames {
      assert m in MonthNames.Values;
      assert |p| < 6 || p[..4] != "MOIS" by {
        if |p| >= 6 {
          assert p[..4] == m[..4];
        }
      }
    }
  }

  /** A code starts with the letter P, so no code starts in a stretch without one. */
  lemma NoCodeWithoutP(text: string, i: nat)
    requires i <= |text| && 'P' !in text[..i]
    ensures forall j :: 0 <= j < i ==> !CodeAt(text, j)
  {
    forall j | 0 <= j < i ensures !CodeAt(text, j) {
      assert text[j] == text[..i][j];
      if j + 4 <= |text| {
        assert text[j..j + 4][0] == text[j];
      }
    }
  }

  /** A date holds the character '/', so a page without one has the period "". */
  lemma NoDateWithoutSlash(text: string)
    requires '/' !in text
    ensures Period(text) == ""
  {
    forall j | 0 <= j ensures !DateAt(text, j) {
      if j + 8 <= |text| {
        assert text[j + 2] in text;
      }
    }
    PeriodWithoutDate(text);
  }

  /** A page whose first P starts a code and that holds no '/' has that code and the period "". */
  lemma ExtractUndated(text: string, i: nat, code: string)
    requires i <= |text| && 'P' !in text[..i] && '/' !in text
    requires CodeAt(text, i) && Normalize(text[i..CodeEnd(text, i)]) == code
    ensures ExtractInfo(text) == Ok(Extracted(code, ""))
  {
    NoCodeWithoutP(text, i);
    ExtractLeftmost(text, i);
    NoDateWithoutSlash(text);
  }

  /** A line that starts with the label "Matricule : " holds no 'P' before the code. */
  lemma MatriculeLabel(text: string)
    requires text == "Matricule : PERC001" || text == "Matricule : PERCO123"
    ensures |text| >= 12 && 'P' !in text[..12] && '/' !in text
  {
    assert text[..12] == "Matricule : ";
  }

  /** `"Matricule : PERC001"` gives the code as it stands (test_regex.py). */
  lemma ExtractPlainCode(text: string)
    requires text == "Matricule : PERC001"
    ensures ExtractInfo(text) == Ok(Extracted("PERC001", ""))
  {
    PlainCodeMatch(text);
    MatriculeLabel(text);
    ExtractUndated(text, 12, "PERC001");
  }

  lemma PlainCodeMatch(text: string)
    requires text == "Matricule : PERC001"
    ensures CodeAt(text, 12) && CodeEnd(text, 12) == 19
    ensures Normalize(text[12..19]) == "PERC001"
  {
    assert CodeAt(text, 12) && DigitsStart(text, 12) == 16;
    assert CodeEnd(text, 12) == 19 by {
      assert DigitRun(text, 19) == 0;
    }
    assert text[12..19] == "PERC001";
  }

  /** `"Matricule : PERCO123"` matches "PERCO123", which becomes "PERC0123". */
  lemma ExtractLetterO(text: string)
    requires text == "Matricule : PERCO123"
    ensures ExtractInfo(text) == Ok(Extracted("PERC0123", ""))
  {
    LetterOMatch(text);
    MatriculeLabel(text);
    ExtractUndated(text, 12, "PERC0123");
  }

  lemma LetterOMatch(text: string)
    requires text == "Matricule : PERCO123"
    ensures CodeAt(text, 12) && CodeEnd(text, 12) == 20
    ensures Normalize(text[12..20]) == "PERC0123"
  {
    assert CodeAt(text, 12) && DigitsStart(text, 12) == 17;
    assert CodeEnd(text, 12) == 20 by {
      assert DigitRun(text, 20) == 0;
    }
    assert text[12..20] == "PERCO123";
  }

  /** `"No match here"` has no code: the source raises. */
  lemma ExtractNoCode()
    ensures ExtractInfo("No match here").Err?
  {
    var text := "No match here";
    assert 'P' !in text[..|text|] by {
      assert text[..|text|] == text;
    }
    NoCodeWithoutP(text, |text|);
  }

  /** Two dates: the first one decides, `"01/10/25 31/10/25"` gives "OCT25". */
  lemma PeriodFirstOfTwo()
    ensures Period("01/10/25 31/10/25") == "OCT25"
  {
    var text := "01/10/25 31/10/25";
    PeriodOfFirstDate(text, 0);
    assert text[3..5] == "10" && text[6..8] == "25";
    assert MonthName("10") == "OCT";
  }
}
