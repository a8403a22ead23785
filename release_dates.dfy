/**
 * Reading one component of a `yyyy-mm-dd` release date: Python's
 * `date.split("-")` followed by `int(parts[k])`, either of which may raise.
 */
module ReleaseDates {
  import opened Wrappers

  /** Why a date component could not be read: the component is missing
      (`IndexError`) or is not an integer (`ValueError`). */
  datatype DateError = MissingField(index: nat) | NotAnInteger(text: string)

  /** `s.split(sep)`: the pieces between separators, empty pieces included. */
  function Split(s: string, sep: char): (parts: seq<string>)
    ensures |parts| >= 1
    ensures forall k :: 0 <= k < |parts| ==> sep !in parts[k]
  {
    if s == [] then [""]
    else
      var rest := Split(s[1..], sep);
      if s[0] == sep then [""] + rest
      else [[s[0]] + rest[0]] + rest[1..]
  }

  /** `sep.join(parts)`. */
  function Join(parts: seq<string>, sep: char): string
    requires |parts| >= 1
  {
    if |parts| == 1 then parts[0] else parts[0] + [sep] + Join(parts[1..], sep)
  }

  /** Joining the pieces of a split gives the string back. */
  lemma {:induction false} JoinSplit(s: string, sep: char)
    ensures Join(Split(s, sep), sep) == s
  {
    if s != [] {
      JoinSplit(s[1..], sep);
      var rest := Split(s[1..], sep);
      if s[0] != sep {
        if |rest| == 1 {
        } else {
          calc {
            Join(Split(s, sep), sep);
            ([s[0]] + rest[0]) + [sep] + Join(rest[1..], sep);
            [s[0]] + (rest[0] + [sep] + Join(rest[1..], sep));
            [s[0]] + Join(rest, sep);
          }
        }
      }
    }
  }

  /** Splitting pieces that hold no separator gives the pieces back. */
  lemma {:induction false} SplitJoin(parts: seq<string>, sep: char)
    requires |parts| >= 1
    requires forall k :: 0 <= k < |parts| ==> sep !in parts[k]
    ensures Split(Join(parts, sep), sep) == parts
  {
    if |parts| == 1 {
      SplitNoSeparator(parts[0], sep);
    } else {
      SplitJoin(parts[1..], sep);
      SplitPrefix(parts[0], Join(parts[1..], sep), sep);
      assert parts == [parts[0]] + parts[1..];
    }
  }

  lemma {:induction false} SplitNoSeparator(s: string, sep: char)
    requires sep !in s
    ensures Split(s, sep) == [s]
  {
    if s != [] {
      SplitNoSeparator(s[1..], sep);
      assert [s[0]] + s[1..] == s;
    }
  }

  /** Splitting `w + [sep] + t` where `w` has no separator: `w` then the pieces of `t`. */
  lemma {:induction false} SplitPrefix(w: string, t: string, sep: char)
    requires sep !in w
    ensures Split(w + [sep] + t, sep) == [w] + Split(t, sep)
  {
    if w == [] {
      assert ([] + [sep] + t)[1..] == t;
    } else {
      SplitPrefix(w[1..], t, sep);
      assert (w + [sep] + t)[1..] == w[1..] + [sep] + t;
      assert [w[0]] + w[1..] == w;
    }
  }

  /** The value of a non-empty string of ASCII digits, most significant first. */
  function DigitsValue(ds: string): (n: nat)
    requires IsDigits(ds)
  {
    if |ds| == 1 then (ds[0] - '0') as nat
    else 10 * DigitsValue(ds[..|ds| - 1]) + (ds[|ds| - 1] - '0') as nat
  }

  predicate IsDigits(s: string) {
    |s| >= 1 && forall i :: 0 <= i < |s| ==> '0' <= s[i] <= '9'
  }

  /** Python's `int(text)` on decimal text: an optional sign and one or more digits. */
  function ParseInt(text: string): (r: Option<int>)
  {
    if IsDigits(text) then Some(DigitsValue(text))
    else if |text| >= 2 && text[0] == '+' && IsDigits(text[1..]) then Some(DigitsValue(text[1..]))
    else if |text| >= 2 && text[0] == '-' && IsDigits(text[1..]) then Some(0 - DigitsValue(text[1..]) as int)
    else None
  }

  /** The decimal digits of n, without leading zeros. */
  function Decimal(n: nat): (ds: string)
    ensures IsDigits(ds)
  {
    if n < 10 then ['0' + n as char] else Decimal(n / 10) + ['0' + (n % 10) as char]
  }

  /** Reading back the decimal digits of a number gives the number. */
  lemma {:induction false} ParseDecimal(n: nat)
    ensures ParseInt(Decimal(n)) == Some(n)
  {
    DecimalValue(n);
  }

  lemma {:induction false} DecimalValue(n: nat)
    ensures DigitsValue(Decimal(n)) == n
  {
    if n >= 10 {
      DecimalValue(n / 10);
      var ds := Decimal(n);
      assert ds[..|ds| - 1] == Decimal(n / 10);
    }
  }

  /** Leading zeros do not change the value, so a zero-padded "09" reads as 9. */
  lemma {:induction false} LeadingZero(ds: string)
    requires IsDigits(ds)
    ensures IsDigits("0" + ds) && DigitsValue("0" + ds) == DigitsValue(ds)
  {
    var z := "0" + ds;
    if |ds| > 1 {
      LeadingZero(ds[..|ds| - 1]);
      assert z[..|z| - 1] == "0" + ds[..|ds| - 1];
    }
  }

  /** `int(date.split("-")[k])`: component k of the date, or the error Python raises. */
  function DateField(date: string, k: nat): (r: Result<int, DateError>)
  {
    var parts := Split(date, '-');
    if k >= |parts| then Err(MissingField(k))
    else match ParseInt(parts[k])
      case None => Err(NotAnInteger(parts[k]))
      case Some(v) => Ok(v)
  }

  /** Component k of dates joined from separator-free digit strings is read as the value of those digits. */
  lemma ReadJoinedField(parts: seq<string>, k: nat)
    requires k < |parts|
    requires forall j :: 0 <= j < |parts| ==> '-' !in parts[j]
    requires IsDigits(parts[k])
    ensures DateField(Join(parts, '-'), k) == Ok(DigitsValue(parts[k]))
  {
    SplitJoin(parts, '-');
  }

  lemma JoinThree(a: string, b: string, c: string, sep: char)
    ensures Join([a, b, c], sep) == a + [sep] + b + [sep] + c
  {
    assert [a, b, c][1..] == [b, c];
    assert [b, c][1..] == [c];
    assert Join([b, c], sep) == b + [sep] + c;
    assert Join([a, b, c], sep) == a + [sep] + (b + [sep] + c);
  }

  /** The year, month and day of a well-formed zero-padded date are read as numbers. */
  lemma ReadPaddedDate(year: nat, month: nat, day: nat)
    requires 1 <= month <= 12 && 1 <= day <= 31
    ensures var date := Decimal(year) + "-" + Padded(month) + "-" + Padded(day);
      DateField(date, 0) == Ok(year) && DateField(date, 1) == Ok(month) && DateField(date, 2) == Ok(day)
  {
    var parts := [Decimal(year), Padded(month), Padded(day)];
    DecimalValue(year);
    DecimalDigits(year);
    PaddedValue(month);
    PaddedValue(day);
    JoinThree(parts[0], parts[1], parts[2], '-');
    assert Join(parts, '-') == Decimal(year) + "-" + Padded(month) + "-" + Padded(day);
    ReadJoinedField(parts, 0);
    ReadJoinedField(parts, 1);
    ReadJoinedField(parts, 2);
  }

  /** Two-digit zero padding, as in "09". */
  function Padded(n: nat): (ds: string)
    ensures IsDigits(ds)
  {
    if n < 10 then "0" + Decimal(n) else Decimal(n)
  }

  lemma DecimalDigits(n: nat)
    ensures '-' !in Decimal(n)
  {
    var ds := Decimal(n);
    assert forall i :: 0 <= i < |ds| ==> '0' <= ds[i] <= '9';
  }

  lemma PaddedValue(n: nat)
    ensures '-' !in Padded(n) && DigitsValue(Padded(n)) == n
  {
    DecimalValue(n);
    if n < 10 {
      LeadingZero(Decimal(n));
    }
  }
}
