/**
 * The Spanish month and weekday names the query API accepts, and their lookup
 * after normalisation (Python's `dict.get`, which gives `None` for an unknown key).
 */
module Calendar {
  import opened Wrappers
  import opened Normalize

  /** The month names in calendar order: month k is MonthNames[k - 1]. */
  const MonthNames: seq<string> := [
    "enero", "febrero", "marzo", "abril", "mayo", "junio",
    "julio", "agosto", "septiembre", "octubre", "noviembre", "diciembre"]

  /** The weekday names from Monday: weekday k is DayNames[k - 1]. */
  const DayNames: seq<string> := [
    "lunes", "martes", "miercoles", "jueves", "viernes", "sabado", "domingo"]

  /** `convert_month_to_number`: the month's number, or None for an unknown name. */
  function ConvertMonthToNumber(month: string): (r: Option<int>)
    ensures r.Some? ==> 1 <= r.value <= 12 && NormalizeString(month) == MonthNames[r.value - 1]
    ensures r.None? ==> NormalizeString(month) !in MonthNames
  {
    var monthDict := map[
      "enero" := 1, "febrero" := 2, "marzo" := 3, "abril" := 4,
      "mayo" := 5, "junio" := 6, "julio" := 7, "agosto" := 8,
      "septiembre" := 9, "octubre" := 10, "noviembre" := 11, "diciembre" := 12];
    var key := NormalizeString(month);
    if key in monthDict then Some(monthDict[key]) else None
  }

  /** `convert_day_to_number`: the weekday's number from Monday, or None for an unknown name. */
  function ConvertDayToNumber(day: string): (r: Option<int>)
    ensures r.Some? ==> 1 <= r.value <= 7 && NormalizeString(day) == DayNames[r.value - 1]
    ensures r.None? ==> NormalizeString(day) !in DayNames
  {
    var dayDict := map[
      "lunes" := 1, "martes" := 2, "miercoles" := 3, "jueves" := 4,
      "viernes" := 5, "sabado" := 6, "domingo" := 7];
    var key := NormalizeString(day);
    if key in dayDict then Some(dayDict[key]) else None
  }

  /** Every spelling whose normal form is the name of month k is found as month k. */
  lemma MonthLookupComplete(month: string, k: int)
    requires 1 <= k <= 12 && NormalizeString(month) == MonthNames[k - 1]
    ensures ConvertMonthToNumber(month) == Some(k)
  {
    var r := ConvertMonthToNumber(month);
    assert MonthNames[k - 1] in MonthNames;
    assert r.Some? && MonthNames[r.value - 1] == MonthNames[k - 1];
    MonthNamesDistinct();
  }

  /** Every spelling whose normal form is the name of weekday k is found as weekday k. */
  lemma DayLookupComplete(day: string, k: int)
    requires 1 <= k <= 7 && NormalizeString(day) == DayNames[k - 1]
    ensures ConvertDayToNumber(day) == Some(k)
  {
    var r := ConvertDayToNumber(day);
    assert DayNames[k - 1] in DayNames;
    assert r.Some? && DayNames[r.value - 1] == DayNames[k - 1];
    DayNamesDistinct();
  }

  /** Every month name is found, under its own number. */
  lemma MonthNamesRoundTrip(k: int)
    requires 1 <= k <= 12
    ensures ConvertMonthToNumber(MonthNames[k - 1]) == Some(k)
  {
    NamesAreNormalized(MonthNames, k - 1);
    MonthLookupComplete(MonthNames[k - 1], k);
  }

  /** Every weekday name is found, under its own number. */
  lemma DayNamesRoundTrip(k: int)
    requires 1 <= k <= 7
    ensures ConvertDayToNumber(DayNames[k - 1]) == Some(k)
  {
    NamesAreNormalized(DayNames, k - 1);
    DayLookupComplete(DayNames[k - 1], k);
  }

  lemma NamesAreNormalized(names: seq<string>, k: int)
    requires names == MonthNames || names == DayNames
    requires 0 <= k < |names|
    ensures NormalizeString(names[k]) == names[k]
  {
    assert IsLowerAsciiWord(names[k]);
    LowerAsciiWordIsNormalized(names[k]);
  }

  lemma MonthNamesDistinct()
    ensures forall j, k :: 0 <= j < k < |MonthNames| ==> MonthNames[j] != MonthNames[k]
  {
  }

  lemma DayNamesDistinct()
    ensures forall j, k :: 0 <= j < k < |DayNames| ==> DayNames[j] != DayNames[k]
  {
  }

  /** Two names that give the same month number normalise to the same name. */
  lemma MonthLookupInjective(a: string, b: string)
    requires ConvertMonthToNumber(a).Some? && ConvertMonthToNumber(a) == ConvertMonthToNumber(b)
    ensures NormalizeString(a) == NormalizeString(b)
  {
  }

  /** Case and acute accents do not matter to the month lookup: two spellings
      that differ only in them give the same month, or both give None. */
  lemma MonthLookupIgnoresCaseAndAccents(a: string, b: string)
    requires SameUpToCaseAndAccents(a, b)
    ensures ConvertMonthToNumber(a) == ConvertMonthToNumber(b)
  {
    CaseAndAccentsDoNotMatter(a, b);
  }

  /** Case and acute accents do not matter to the weekday lookup. */
  lemma DayLookupIgnoresCaseAndAccents(a: string, b: string)
    requires SameUpToCaseAndAccents(a, b)
    ensures ConvertDayToNumber(a) == ConvertDayToNumber(b)
  {
    CaseAndAccentsDoNotMatter(a, b);
  }

  /** The capitalised name is found. */
  lemma UpperCaseMonthFound(month: string)
    requires month == "SEPTIEMBRE"
    ensures ConvertMonthToNumber(month) == Some(9)
  {
    var word := MonthNames[8];
    assert NormalizeString(month) == word by {
      SameNormalForm(month, word);
    }
    MonthLookupComplete(month, 9);
  }

  /** A trailing space becomes a hyphen, so the padded name is not found. */
  lemma PaddedMonthNotFound(month: string)
    requires month == "septiembre "
    ensures ConvertMonthToNumber(month) == None
  {
    var key := NormalizeString(month);
    assert key[|key| - 1] == '-';
    assert forall k :: 0 <= k < |MonthNames| ==> MonthNames[k][|MonthNames[k]| - 1] != '-';
  }

  /** The accented name is found. */
  lemma AccentedWednesdayFound(day: string)
    requires day == "miércoles"
    ensures ConvertDayToNumber(day) == Some(3)
  {
    var word := DayNames[2];
    assert NormalizeString(day) == word by {
      assert forall i :: 0 <= i < |word| && i != 2 ==> day[i] == word[i];
      assert NormalizeChar(day[2]) == word[2];
      SameNormalForm(day, word);
    }
    DayLookupComplete(day, 3);
  }

  /** The capitalised, accented name is found. */
  lemma AccentedSaturdayFound(day: string)
    requires day == "Sábado"
    ensures ConvertDayToNumber(day) == Some(6)
  {
    var word := DayNames[5];
    assert NormalizeString(day) == word by {
      assert forall i :: 2 <= i < |word| ==> day[i] == word[i];
      assert NormalizeChar(day[0]) == word[0] && NormalizeChar(day[1]) == word[1];
      SameNormalForm(day, word);
    }
    DayLookupComplete(day, 6);
  }

  /** Spellings whose characters normalise one by one to the characters of `word`
      have `word` as their normal form. */
  lemma SameNormalForm(spelling: string, word: string)
    requires |spelling| == |word| && IsLowerAsciiWord(word)
    requires forall i :: 0 <= i < |word| ==> spelling[i] == word[i] || NormalizeChar(spelling[i]) == word[i]
    ensures NormalizeString(spelling) == NormalizeString(word) == word
  {
    LowerAsciiWordIsNormalized(word);
  }
}
