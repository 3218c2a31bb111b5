/** The extended complete calendar date representation of ISO 8601
    (`YYYY-MM-DD`, section 4.1.2.2 of ISO 8601:2004): what
    `datetime.fromisoformat` reads and `date.isoformat()` writes for a date. */
module Iso {
  import opened Outcomes
  import opened Dates

  predicate IsDigit(c: char) {
    '0' <= c <= '9'
  }

  predicate AllDigits(s: string) {
    forall i :: 0 <= i < |s| ==> IsDigit(s[i])
  }

  function DigitValue(c: char): (v: nat)
    requires IsDigit(c)
    ensures v < 10
  {
    c as int - '0' as int
  }

  function DigitChar(v: nat): (c: char)
    requires v < 10
    ensures IsDigit(c) && DigitValue(c) == v
  {
    ('0' as int + v) as char
  }

  function Pow10(k: nat): (p: nat)
    ensures p >= 1
  {
    if k == 0 then 1 else 10 * Pow10(k - 1)
  }

  /** The value of a string of decimal digits, most significant first. */
  function Number(s: string): (n: nat)
    requires AllDigits(s)
    ensures n < Pow10(|s|)
  {
    if s == [] then 0 else Number(s[..|s| - 1]) * 10 + DigitValue(s[|s| - 1])
  }

  /** The last `width` decimal digits of `n`, zero-padded (`%0<width>d` for `n` that fits). */
  function Pad(n: nat, width: nat): (s: string)
    ensures |s| == width && AllDigits(s)
  {
    if width == 0 then [] else Pad(n / 10, width - 1) + [DigitChar(n % 10)]
  }

  lemma {:induction false} NumberOfPad(n: nat, width: nat)
    requires n < Pow10(width)
    ensures Number(Pad(n, width)) == n
  {
    if width > 0 {
      var s := Pad(n, width);
      assert s[..|s| - 1] == Pad(n / 10, width - 1);
      NumberOfPad(n / 10, width - 1);
    }
  }

  lemma {:induction false} PadOfNumber(s: string)
    requires AllDigits(s)
    ensures Pad(Number(s), |s|) == s
  {
    if s != [] {
      var init := s[..|s| - 1];
      PadOfNumber(init);
      assert Number(s) / 10 == Number(init);
      assert s == init + [s[|s| - 1]];
    }
  }

  /** `date.isoformat()`: four-digit year, two-digit month and day, joined by hyphens. */
  function IsoFormat(d: Date): (s: string)
    requires InRange(d)
    ensures IsoShaped(s)
  {
    Pad(d.year, 4) + "-" + Pad(d.month, 2) + "-" + Pad(d.day, 2)
  }

  /** Ten characters: four digits, a hyphen, two digits, a hyphen, two digits. */
  predicate IsoShaped(s: string) {
    |s| == 10 && s[4] == '-' && s[7] == '-' &&
    AllDigits(s[..4]) && AllDigits(s[5..7]) && AllDigits(s[8..])
  }

  /** `datetime.fromisoformat(s).date()` for the `YYYY-MM-DD` form; any other text,
      or a date that does not exist (year 0, month 13, 30 February), is refused. */
  function ParseIsoDate(s: string): (r: Result<Date, DateError>)
    ensures r.Ok? ==> InRange(r.value) && IsoShaped(s)
    ensures r.Err? ==> r.error == MalformedDate
  {
    if !IsoShaped(s) then Err(MalformedDate)
    else
      var d := Date(Number(s[..4]), Number(s[5..7]), Number(s[8..]));
      if MinYear <= d.year && 1 <= d.month <= 12 && 1 <= d.day <= DaysInMonth(d.year, d.month)
      then Ok(d)
      else Err(MalformedDate)
  }

  /** Reading back what `isoformat` wrote gives the date again. */
  lemma ParseOfFormat(d: Date)
    requires InRange(d)
    ensures ParseIsoDate(IsoFormat(d)) == Ok(d)
  {
    var s := IsoFormat(d);
    assert s[..4] == Pad(d.year, 4);
    assert s[5..7] == Pad(d.month, 2);
    assert s[8..] == Pad(d.day, 2);
    NumberOfPad(d.year, 4);
    NumberOfPad(d.month, 2);
    NumberOfPad(d.day, 2);
  }

  /** The only text read as a given date is that date's `isoformat`. */
  lemma FormatOfParse(s: string)
    requires ParseIsoDate(s).Ok?
    ensures IsoFormat(ParseIsoDate(s).value) == s
  {
    var d := ParseIsoDate(s).value;
    PadOfNumber(s[..4]);
    PadOfNumber(s[5..7]);
    PadOfNumber(s[8..]);
    assert s == s[..4] + "-" + s[5..7] + "-" + s[8..];
  }
}
