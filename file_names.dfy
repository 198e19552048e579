/**
 The file-name filter of the loader: a name is taken when it starts with
 `data-`, four decimal digits and `.xls` (the pattern is anchored only at the
 start, so anything may follow), and the year is the value of the four digits.
 */
module FileNames {
  import opened Cells

  const Prefix: string := "data-"
  const Extension: string := ".xls"
  /** Length of the matched part: prefix, four digits, extension. */
  const MatchedLength: nat := 13

  predicate IsDigit(c: char) {
    '0' <= c <= '9'
  }

  function DigitValue(c: char): (d: nat)
    requires IsDigit(c)
    ensures d <= 9
  {
    c as int - '0' as int
  }

  function DigitChar(d: nat): (c: char)
    requires d <= 9
    ensures IsDigit(c) && DigitValue(c) == d
  {
    ('0' as int + d) as char
  }

  /** The four-digit, zero-padded decimal spelling of a year. */
  function FourDigits(year: nat): (s: string)
    requires year <= 9999
    ensures |s| == 4 && forall k :: 0 <= k < 4 ==> IsDigit(s[k])
  {
    [DigitChar(year / 1000), DigitChar(year / 100 % 10), DigitChar(year / 10 % 10), DigitChar(year % 10)]
  }

  /** The canonical file name for a year, `data-YYYY.xls`. */
  function FileNameFor(year: nat): (s: string)
    requires year <= 9999
    ensures |s| == MatchedLength
  {
    Prefix + FourDigits(year) + Extension
  }

  /** Value of four decimal digits, most significant first. */
  function DigitsValue(a: nat, b: nat, c: nat, d: nat): nat {
    1000 * a + 100 * b + 10 * c + d
  }

  lemma {:induction false} DigitsValueSplit(a: nat, b: nat, c: nat, d: nat)
    requires a <= 9 && b <= 9 && c <= 9 && d <= 9
    ensures var y := DigitsValue(a, b, c, d);
      y <= 9999 && y / 1000 == a && y / 100 % 10 == b && y / 10 % 10 == c && y % 10 == d
  {
    var y := DigitsValue(a, b, c, d);
    assert y == 10 * (100 * a + 10 * b + c) + d;
    assert y / 10 == 100 * a + 10 * b + c;
    assert y == 100 * (10 * a + b) + (10 * c + d);
    assert y / 100 == 10 * a + b;
    assert y == 1000 * a + (100 * b + 10 * c + d);
    assert y / 1000 == a;
  }

  lemma {:induction false} DigitsValueJoin(y: nat)
    requires y <= 9999
    ensures DigitsValue(y / 1000, y / 100 % 10, y / 10 % 10, y % 10) == y
    ensures y / 1000 <= 9
  {
    var a, r3 := y / 1000, y % 1000;
    var b, r2 := r3 / 100, r3 % 100;
    var c, d := r2 / 10, r2 % 10;
    assert y == 1000 * a + 100 * b + 10 * c + d;
    DigitsValueSplit(a, b, c, d);
  }

  /** The value of four digit characters, most significant first. */
  function DigitsOf(s: string): (y: nat)
    requires |s| == 4 && forall k :: 0 <= k < 4 ==> IsDigit(s[k])
    ensures y <= 9999 && FourDigits(y) == s
  {
    var a, b, c, d := DigitValue(s[0]), DigitValue(s[1]), DigitValue(s[2]), DigitValue(s[3]);
    DigitsValueSplit(a, b, c, d);
    DigitsValue(a, b, c, d)
  }

  /** The shape the pattern accepts: prefix, four digits, extension at the start of the name. */
  predicate Taken(name: string) {
    |name| >= MatchedLength && name[..5] == Prefix && name[9..MatchedLength] == Extension
    && IsDigit(name[5]) && IsDigit(name[6]) && IsDigit(name[7]) && IsDigit(name[8])
  }

  /** A taken name starts with the canonical name of the year its digits spell. */
  lemma TakenSpelled(name: string)
    requires Taken(name)
    ensures name[..MatchedLength] == FileNameFor(DigitsOf(name[5..9]))
  {
    var y := DigitsOf(name[5..9]);
    assert name[..MatchedLength] == name[..5] + name[5..9] + name[9..MatchedLength];
  }

  /** `re.match(r"data-(\d{4})\.xls", name)` followed by `int(match.group(1))`:
      the year when the name is taken, None when it is skipped. */
  function MatchYear(name: string): (r: Option<nat>)
    ensures r.Some? ==> r.value <= 9999
    ensures r.Some? ==> |name| >= MatchedLength && name[..MatchedLength] == FileNameFor(r.value)
  {
    if Taken(name) then
      TakenSpelled(name);
      Some(DigitsOf(name[5..9]))
    else
      None
  }

  /** Every year 0..9999 is recovered from its canonical name, whatever follows it
      (so `data-2020.xlsx` is taken as 2020 as well). */
  lemma {:induction false} MatchYearOfFileName(year: nat, rest: string)
    requires year <= 9999
    ensures MatchYear(FileNameFor(year) + rest) == Some(year)
  {
    var name := FileNameFor(year) + rest;
    DigitsValueJoin(year);
    assert name[..5] == Prefix;
    assert name[9..MatchedLength] == Extension;
    assert name[5..9] == FourDigits(year);
  }

  /** A name is taken with a given year exactly when it starts with that year's
      canonical name. */
  lemma {:induction false} MatchYearIff(name: string, year: nat)
    ensures MatchYear(name) == Some(year) <==>
            (year <= 9999 && |name| >= MatchedLength && name[..MatchedLength] == FileNameFor(year))
  {
    if year <= 9999 && |name| >= MatchedLength && name[..MatchedLength] == FileNameFor(year) {
      assert name == FileNameFor(year) + name[MatchedLength..];
      MatchYearOfFileName(year, name[MatchedLength..]);
    }
  }
}
