/** The `YYYY-MM-DD` text a cell carries in `data-date` and that
    `_findCellByDate` looks up: the full-date form of section 5.6 of
    RFC 3339. The grid model keys cells by `Date` values; the round trip
    below is why that is the same lookup: distinct days have distinct keys. */
module FullDate {
  import opened Dates
  import opened Wrappers

  predicate IsDigit(c: char) {
    '0' <= c <= '9'
  }

  predicate AllDigits(s: string) {
    forall i :: 0 <= i < |s| ==> IsDigit(s[i])
  }

  function DigitChar(n: int): (c: char)
    requires 0 <= n < 10
    ensures IsDigit(c)
  {
    ['0', '1', '2', '3', '4', '5', '6', '7', '8', '9'][n]
  }

  function DigitValue(c: char): (n: int)
    requires IsDigit(c)
    ensures 0 <= n < 10
  {
    c as int - '0' as int
  }

  lemma DigitRoundTrip(n: int)
    requires 0 <= n < 10
    ensures DigitValue(DigitChar(n)) == n
  {
  }

  /** n in exactly `width` decimal digits, zero-padded on the left. */
  function Pad(n: nat, width: nat): (s: string)
    requires n < Power10(width)
    ensures |s| == width && AllDigits(s)
  {
    if width == 0 then ""
    else Pad(n / 10, width - 1) + [DigitChar(n % 10)]
  }

  /** The value of a string of decimal digits. */
  function Value(s: string): (n: nat)
    requires AllDigits(s)
    ensures n < Power10(|s|)
  {
    if |s| == 0 then 0
    else 10 * Value(s[..|s| - 1]) + DigitValue(s[|s| - 1])
  }

  function Power10(k: nat): (p: nat)
    ensures p >= 1
  {
    if k == 0 then 1 else 10 * Power10(k - 1)
  }

  lemma {:induction false} PadRoundTrip(n: nat, width: nat)
    requires n < Power10(width)
    ensures Value(Pad(n, width)) == n
  {
    if width > 0 {
      var s := Pad(n, width);
      assert s[..|s| - 1] == Pad(n / 10, width - 1);
      PadRoundTrip(n / 10, width - 1);
      DigitRoundTrip(n % 10);
    }
  }

  lemma {:induction false} ValueRoundTrip(s: string)
    requires AllDigits(s)
    ensures Pad(Value(s), |s|) == s
  {
    if |s| > 0 {
      var t := s[..|s| - 1];
      var c := s[|s| - 1];
      ValueRoundTrip(t);
      assert Value(s) / 10 == Value(t) && Value(s) % 10 == DigitValue(c);
      assert DigitChar(DigitValue(c)) == c;
      assert s == t + [c];
    }
  }

  /** `format('YYYY-MM-DD')` for the years moment writes in four digits. */
  function Format(d: ValidDate): (s: string)
    requires 0 <= d.year <= 9999
    ensures |s| == 10 && s[4] == '-' && s[7] == '-'
  {
    Pad(d.year, 4) + "-" + Pad(d.month + 1, 2) + "-" + Pad(d.day, 2)
  }

  /** Reading a full-date back; None for anything that is not one. */
  function Parse(s: string): (r: Option<ValidDate>)
    ensures r.Some? ==> 0 <= r.value.year <= 9999
  {
    if |s| != 10 || s[4] != '-' || s[7] != '-' then None
    else if !(AllDigits(s[..4]) && AllDigits(s[5..7]) && AllDigits(s[8..])) then None
    else
      var y, m, d := Value(s[..4]), Value(s[5..7]), Value(s[8..]);
      if !(1 <= m <= 12) then None
      else if !(1 <= d <= DaysInMonth(y, m - 1)) then None
      else Some(Date(y, m - 1, d))
  }

  /** The three fields of a formatted day, and its digit positions. */
  lemma FormatFields(d: ValidDate)
    requires 0 <= d.year <= 9999
    ensures Format(d)[..4] == Pad(d.year, 4)
    ensures Format(d)[5..7] == Pad(d.month + 1, 2)
    ensures Format(d)[8..] == Pad(d.day, 2)
  {
    var s := Format(d);
    var ys, ms, ds := Pad(d.year, 4), Pad(d.month + 1, 2), Pad(d.day, 2);
    assert s == ys + "-" + ms + "-" + ds;
  }

  /** Parsing a formatted day gives the day back. */
  lemma ParseFormat(d: ValidDate)
    requires 0 <= d.year <= 9999
    ensures Parse(Format(d)) == Some(d)
  {
    var s := Format(d);
    FormatReads(d);
    ParseAccepts(s, d.year, d.month + 1, d.day);
  }

  /** The fields of a formatted day read back as its year, month and day. */
  lemma FormatReads(d: ValidDate)
    requires 0 <= d.year <= 9999
    ensures AllDigits(Format(d)[..4]) && Value(Format(d)[..4]) == d.year
    ensures AllDigits(Format(d)[5..7]) && Value(Format(d)[5..7]) == d.month + 1
    ensures AllDigits(Format(d)[8..]) && Value(Format(d)[8..]) == d.day
  {
    FormatFields(d);
    PadRoundTrip(d.year, 4);
    PadRoundTrip(d.month + 1, 2);
    PadRoundTrip(d.day, 2);
  }

  /** A well-formed text whose fields read as a valid day parses to it. */
  lemma ParseAccepts(s: string, y: int, mo: int, dd: int)
    requires |s| == 10 && s[4] == '-' && s[7] == '-'
    requires AllDigits(s[..4]) && AllDigits(s[5..7]) && AllDigits(s[8..])
    requires Value(s[..4]) == y && Value(s[5..7]) == mo && Value(s[8..]) == dd
    requires 1 <= mo <= 12 && 1 <= dd <= DaysInMonth(y, mo - 1)
    ensures Parse(s) == Some(Date(y, mo - 1, dd))
  {
  }

  /** Distinct days have distinct cell keys, so looking a cell up by its
      key is looking it up by its day. */
  lemma FormatInjective(a: ValidDate, b: ValidDate)
    requires 0 <= a.year <= 9999 && 0 <= b.year <= 9999
    ensures Format(a) == Format(b) <==> a == b
  {
    if Format(a) == Format(b) {
      ParseFormat(a);
      ParseFormat(b);
    }
  }

  /** What the parser checked of a text it accepted. */
  lemma ParseFields(s: string)
    requires Parse(s).Some?
    ensures |s| == 10 && s[4] == '-' && s[7] == '-'
    ensures AllDigits(s[..4]) && AllDigits(s[5..7]) && AllDigits(s[8..])
    ensures Parse(s).value == Date(Value(s[..4]), Value(s[5..7]) - 1, Value(s[8..]))
  {
  }

  lemma Reassemble(s: string)
    requires |s| == 10 && s[4] == '-' && s[7] == '-'
    ensures s == s[..4] + "-" + s[5..7] + "-" + s[8..]
  {
  }

  /** Formatting a parsed day gives the text back: every full-date the
      parser accepts is the key of exactly one day. */
  lemma FormatParse(s: string)
    requires Parse(s).Some?
    ensures Format(Parse(s).value) == s
  {
    ParseFields(s);
    var d := Parse(s).value;
    ValueRoundTrip(s[..4]);
    ValueRoundTrip(s[5..7]);
    ValueRoundTrip(s[8..]);
    assert Pad(d.year, 4) == s[..4];
    assert Pad(d.month + 1, 2) == s[5..7];
    assert Pad(d.day, 2) == s[8..];
    Reassemble(s);
  }
}
