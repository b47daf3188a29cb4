/**
 * `Refs._date_fmt`, the validator of `loading_date` and
 * `scheduled_delivery_date`: a value that, once stripped, is a day-first date
 * `dd.mm.yyyy` (any of `.`, `/` and `-` as each separator) is rewritten as
 * `yyyy-mm-dd`; every other value is returned as it came, unstripped.
 */
module Dates {
  import opened Wrappers
  import opened Text

  predicate IsDateSeparator(c: char) { c == '.' || c == '/' || c == '-' }

  /** `(\d{2})[./-](\d{2})[./-](\d{4})$` matching the whole string. */
  predicate IsDayFirst(s: string)
  {
    |s| == 10
    && IsDigit(s[0]) && IsDigit(s[1]) && IsDateSeparator(s[2])
    && IsDigit(s[3]) && IsDigit(s[4]) && IsDateSeparator(s[5])
    && IsDigit(s[6]) && IsDigit(s[7]) && IsDigit(s[8]) && IsDigit(s[9])
  }

  /** `yyyy-mm-dd`. */
  predicate IsIso(s: string)
  {
    |s| == 10
    && IsDigit(s[0]) && IsDigit(s[1]) && IsDigit(s[2]) && IsDigit(s[3]) && s[4] == '-'
    && IsDigit(s[5]) && IsDigit(s[6]) && s[7] == '-' && IsDigit(s[8]) && IsDigit(s[9])
  }

  /** The day, month and year fields of a day-first date. */
  function DayFirstFields(s: string): (string, string, string)
    requires IsDayFirst(s)
  {
    (s[..2], s[3..5], s[6..])
  }

  /** The day, month and year fields of an ISO date. */
  function IsoFields(s: string): (string, string, string)
    requires IsIso(s)
  {
    (s[8..], s[5..7], s[..4])
  }

  /** `_date_fmt(v)`. */
  function DateFmt(v: Option<string>): (r: Option<string>)
    ensures v.None? ==> r.None?
    ensures v.Some? && IsDayFirst(Strip(v.value)) ==>
      r.Some? && IsIso(r.value) && IsoFields(r.value) == DayFirstFields(Strip(v.value))
    ensures v.Some? && !IsDayFirst(Strip(v.value)) ==> r == v
  {
    match v
    case None => None
    case Some(raw) =>
      var s := Strip(raw);
      if IsDayFirst(s) then
        var iso := s[6..] + "-" + s[3..5] + "-" + s[..2];
        assert iso[8..] == s[..2] && iso[5..7] == s[3..5] && iso[..4] == s[6..];
        Some(iso)
      else v
  }

  /** No string is both a day-first date and an ISO date: position 2 is a
      separator in one and a digit in the other. */
  lemma IsoIsNotDayFirst(s: string)
    requires IsIso(s)
    ensures !IsDayFirst(s)
  {
  }

  /** An ISO date has no surrounding whitespace: it begins and ends with a digit. */
  lemma IsoIsStripped(s: string)
    requires IsIso(s)
    ensures Strip(s) == s
  {
    assert !IsSpace(s[0]) && !IsSpace(s[|s| - 1]);
    StripCharsNoop(s, Whitespace);
  }

  /** A value whose stripped form is already `yyyy-mm-dd` comes back unchanged,
      surrounding whitespace included. */
  lemma DateFmtKeepsIso(v: string)
    requires IsIso(Strip(v))
    ensures DateFmt(Some(v)) == Some(v)
  {
    IsoIsNotDayFirst(Strip(v));
  }

  /** Normalising a normalised date changes nothing. */
  lemma DateFmtIdempotent(v: Option<string>)
    ensures DateFmt(DateFmt(v)) == DateFmt(v)
  {
    if v.Some? && IsDayFirst(Strip(v.value)) {
      var r := DateFmt(v).value;
      IsoIsStripped(r);
      IsoIsNotDayFirst(r);
    }
  }

  /** `"05.03.2024"` becomes `"2024-03-05"`. */
  lemma DateFmtExample()
    ensures DateFmt(Some("05.03.2024")) == Some("2024-03-05")
  {
    StripCharsNoop("05.03.2024", Whitespace);
    assert IsDayFirst("05.03.2024");
    assert "05.03.2024"[6..] + "-" + "05.03.2024"[3..5] + "-" + "05.03.2024"[..2] == "2024-03-05";
  }

  /** Surrounding whitespace is dropped and mixed separators are accepted:
      `" 05/03-2024\n"` becomes `"2024-03-05"`. */
  lemma DateFmtPaddedExample()
    ensures DateFmt(Some(" 05/03-2024\n")) == Some("2024-03-05")
  {
    var padded := " 05/03-2024\n";
    assert padded[0] in Whitespace && padded[1..] == "05/03-2024\n";
    assert "05/03-2024\n"[|"05/03-2024\n"| - 1] in Whitespace;
    assert "05/03-2024\n"[..10] == "05/03-2024";
    assert TrimStart(padded, Whitespace) == "05/03-2024\n";
    assert TrimEnd("05/03-2024\n", Whitespace) == TrimEnd("05/03-2024", Whitespace) == "05/03-2024";
    assert Strip(padded) == "05/03-2024";
    assert "05/03-2024"[6..] + "-" + "05/03-2024"[3..5] + "-" + "05/03-2024"[..2] == "2024-03-05";
  }
}
