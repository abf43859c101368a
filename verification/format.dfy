/**
 The integer formatting the report uses: .NET's `d4` / `d2` format
 specifiers (at least that many decimal digits, zero-padded on the left,
 with a leading minus sign for negative values), the tab-separated
 Year / HDD / CDD lines, and the `YYYY-MM-DD` date labels. Each rendering is
 paired with a parser that reads it back.
 */
module Format {
  import opened Combined
  import opened Variability

  datatype Option<T> = None | Some(value: T)

  predicate IsDigit(c: char) {
    '0' <= c <= '9'
  }

  predicate AllDigits(s: string) {
    forall i :: 0 <= i < |s| ==> IsDigit(s[i])
  }

  function DigitChar(d: nat): (c: char)
    requires d < 10
    ensures IsDigit(c)
  {
    ('0' as int + d) as char
  }

  function DigitValue(c: char): nat
    requires IsDigit(c)
  {
    (c as int - '0' as int) as nat
  }

  /** The decimal digits of `n`, without leading zeros ("0" for zero). */
  function Digits(n: nat): (r: string)
    ensures |r| >= 1 && AllDigits(r)
  {
    if n < 10 then [DigitChar(n)] else Digits(n / 10) + [DigitChar(n % 10)]
  }

  function Zeros(k: nat): (r: string)
    ensures |r| == k && AllDigits(r)
  {
    if k == 0 then "" else "0" + Zeros(k - 1)
  }

  /** `n` in at least `width` digits, zero-padded on the left. */
  function PadDigits(n: nat, width: nat): (r: string)
    ensures |r| >= 1 && |r| >= width && AllDigits(r)
  {
    var d := Digits(n);
    (if |d| < width then Zeros(width - |d|) else "") + d
  }

  /** .NET's `{n:d<width>}`. */
  function FormatD(n: int, width: nat): (r: string)
    ensures |r| >= 1 && |r| >= width
    ensures r[0] == '-' <==> n < 0
    ensures n >= 0 ==> AllDigits(r)
  {
    if n < 0 then "-" + PadDigits(-n, width) else PadDigits(n, width)
  }

  /** The value of a string of decimal digits. */
  function ParseNat(s: string): nat
    requires AllDigits(s)
  {
    if |s| == 0 then 0 else 10 * ParseNat(s[..|s| - 1]) + DigitValue(s[|s| - 1])
  }

  /** Reads back an optionally signed decimal integer; anything else is `None`. */
  function ParseInt(s: string): Option<int> {
    if |s| > 1 && s[0] == '-' && AllDigits(s[1..]) then Some(-(ParseNat(s[1..]) as int))
    else if |s| > 0 && AllDigits(s) then Some(ParseNat(s))
    else None
  }

  function Pow10(k: nat): (r: nat)
    ensures r >= 1
  {
    if k == 0 then 1 else 10 * Pow10(k - 1)
  }

  lemma {:induction false} ParseDigits(n: nat)
    ensures ParseNat(Digits(n)) == n
    decreases n
  {
    if n >= 10 {
      var d := Digits(n);
      assert d[..|d| - 1] == Digits(n / 10);
      ParseDigits(n / 10);
    }
  }

  lemma {:induction false} ParseLeadingZero(s: string)
    requires AllDigits(s)
    ensures ParseNat("0" + s) == ParseNat(s)
    decreases |s|
  {
    if |s| > 0 {
      var init := s[..|s| - 1];
      assert ("0" + s)[..|s|] == "0" + init;
      ParseLeadingZero(init);
    }
  }

  lemma {:induction false} ParseZeros(k: nat, s: string)
    requires AllDigits(s)
    ensures ParseNat(Zeros(k) + s) == ParseNat(s)
    decreases k
  {
    if k == 0 {
      assert Zeros(k) + s == s;
    } else {
      var t := Zeros(k - 1) + s;
      assert Zeros(k) + s == "0" + t;
      assert AllDigits(t);
      ParseZeros(k - 1, s);
      ParseLeadingZero(t);
    }
  }

  lemma PadDigitsParse(m: nat, width: nat)
    ensures |PadDigits(m, width)| >= 1 && AllDigits(PadDigits(m, width))
    ensures ParseNat(PadDigits(m, width)) == m
  {
    var d := Digits(m);
    var z := if |d| < width then Zeros(width - |d|) else "";
    assert PadDigits(m, width) == z + d;
    assert z == Zeros(|z|);
    ParseDigits(m);
    ParseZeros(|z|, d);
  }

  /** A non-empty digit string reads back as its value. */
  lemma ParseIntDigits(p: string)
    requires |p| >= 1 && AllDigits(p)
    ensures ParseInt(p) == Some(ParseNat(p) as int)
  {
    assert IsDigit(p[0]);
  }

  /** A minus sign before a non-empty digit string reads back as the negated value. */
  lemma ParseIntNegative(p: string)
    requires |p| >= 1 && AllDigits(p)
    ensures ParseInt("-" + p) == Some(-(ParseNat(p) as int))
  {
    var q := "-" + p;
    assert q[1..] == p && |q| > 1 && q[0] == '-';
  }

  /** Reading a `d<width>` rendering back gives the number that was rendered. */
  lemma FormatDRoundTrip(n: int, width: nat)
    ensures ParseInt(FormatD(n, width)) == Some(n)
  {
    if n < 0 {
      var m: nat := -n;
      PadDigitsParse(m, width);
      ParseIntNegative(PadDigits(m, width));
    } else {
      PadDigitsParse(n, width);
      ParseIntDigits(PadDigits(n, width));
    }
  }

  lemma {:induction false} DigitsLength(n: nat, width: nat)
    requires width >= 1 && n < Pow10(width)
    ensures |Digits(n)| <= width
    decreases width
  {
    if n >= 10 {
      assert n / 10 < Pow10(width - 1);
      DigitsLength(n / 10, width - 1);
    }
  }

  /** A non-negative number below `10^width` renders in exactly `width` characters. */
  lemma FormatDWidth(n: int, width: nat)
    requires width >= 1 && 0 <= n < Pow10(width)
    ensures |FormatD(n, width)| == width
  {
    DigitsLength(n, width);
  }

  /** Splits `s` at every `sep`, keeping empty fields. */
  function Split(s: string, sep: char): (r: seq<string>)
    ensures |r| >= 1
  {
    if |s| == 0 then [""]
    else if s[0] == sep then [""] + Split(s[1..], sep)
    else
      var rest := Split(s[1..], sep);
      [[s[0]] + rest[0]] + rest[1..]
  }

  lemma {:induction false} SplitField(a: string, sep: char)
    requires sep !in a
    ensures Split(a, sep) == [a]
    decreases |a|
  {
    if |a| > 0 {
      assert a[0] != sep && sep !in a[1..];
      SplitField(a[1..], sep);
      assert [a[0]] + a[1..] == a;
    }
  }

  lemma {:induction false} SplitFields(a: string, b: string, sep: char)
    requires sep !in a
    ensures Split(a + [sep] + b, sep) == [a] + Split(b, sep)
    decreases |a|
  {
    if |a| == 0 {
      assert a + [sep] + b == [sep] + b;
    } else {
      assert (a + [sep] + b)[1..] == a[1..] + [sep] + b;
      assert a[0] != sep && sep !in a[1..];
      SplitFields(a[1..], b, sep);
      assert [a[0]] + a[1..] == a;
    }
  }

  /** A formatted number contains neither a tab nor, when non-negative, a hyphen. */
  lemma FormatDChars(n: int, width: nat)
    ensures '\t' !in FormatD(n, width)
    ensures n >= 0 ==> '-' !in FormatD(n, width)
  {
    var m := if n < 0 then -n else n;
    var d := Digits(m);
    var z := if |d| < width then Zeros(width - |d|) else "";
    assert PadDigits(m, width) == z + d;
    assert AllDigits(z + d);
  }

  /** Header of the combined table. */
  const TableHeader: string := "Year\tHDD\tCDD"

  /** One line of the combined table: year, heating count and cooling count, each in `d4`. */
  function RenderRow(r: CombinedRow): (line: string)
    ensures |line| >= 14
  {
    FormatD(r.year, 4) + "\t" + FormatD(r.heating, 4) + "\t" + FormatD(r.cooling, 4)
  }

  /** Reads a table line back; `None` unless it has three numeric fields with non-negative counts. */
  function ParseRow(line: string): Option<CombinedRow> {
    var f := Split(line, '\t');
    if |f| != 3 then None
    else
      match (ParseInt(f[0]), ParseInt(f[1]), ParseInt(f[2]))
      case (Some(y), Some(h), Some(c)) =>
        if h >= 0 && c >= 0 then Some(CombinedRow(y, h, c)) else None
      case _ => None
  }

  /** Every table line reads back as the row it was rendered from. */
  lemma RenderRowRoundTrip(r: CombinedRow)
    ensures ParseRow(RenderRow(r)) == Some(r)
  {
    var a, b, c := FormatD(r.year, 4), FormatD(r.heating, 4), FormatD(r.cooling, 4);
    FormatDChars(r.year, 4);
    FormatDChars(r.heating, 4);
    FormatDChars(r.cooling, 4);
    assert RenderRow(r) == a + ['\t'] + (b + ['\t'] + c);
    SplitFields(a, b + ['\t'] + c, '\t');
    SplitFields(b, c, '\t');
    SplitField(c, '\t');
    FormatDRoundTrip(r.year, 4);
    FormatDRoundTrip(r.heating, 4);
    FormatDRoundTrip(r.cooling, 4);
  }

  /** The combined table as printed: the header line, then one line per row in order. */
  function RenderTable(t: seq<CombinedRow>): seq<string> {
    [TableHeader] + seq(|t|, i requires 0 <= i < |t| => RenderRow(t[i]))
  }

  /** The header never reads back as a row: its first field is not a number. */
  lemma HeaderIsNotRow()
    ensures ParseRow(TableHeader) == None
  {
    SplitFields("Year", "HDD\tCDD", '\t');
    assert TableHeader == "Year" + ['\t'] + "HDD\tCDD";
    assert !IsDigit("Year"[0]);
    assert ParseInt("Year") == None;
  }

  /**
   The printed table starts with the header, which is not a row, and line
   `i + 1` reads back as row `i`: the rows can be recovered from the text.
   */
  lemma RenderTableRoundTrip(t: seq<CombinedRow>)
    ensures |RenderTable(t)| == |t| + 1
    ensures RenderTable(t)[0] == TableHeader && ParseRow(RenderTable(t)[0]) == None
    ensures forall i :: 0 <= i < |t| ==> ParseRow(RenderTable(t)[i + 1]) == Some(t[i])
  {
    HeaderIsNotRow();
    forall i | 0 <= i < |t|
      ensures ParseRow(RenderTable(t)[i + 1]) == Some(t[i])
    {
      RenderTableLine(t, i);
    }
  }

  lemma RenderTableLine(t: seq<CombinedRow>, i: nat)
    requires i < |t|
    ensures ParseRow(RenderTable(t)[i + 1]) == Some(t[i])
  {
    var line := RenderTable(t)[i + 1];
    assert line == RenderRow(t[i]);
    RenderRowRoundTrip(t[i]);
  }

  /** The `YYYY-MM-DD` label of a most-variable day: year in `d4`, month and day in `d2`. */
  function DateLabel(v: VariableDay): (r: string)
    ensures |r| >= 10
  {
    FormatD(v.year, 4) + "-" + FormatD(v.month, 2) + "-" + FormatD(v.day, 2)
  }

  /** For a calendar date of years 0 to 9999 the label is ten characters long and reads back as that date. */
  lemma DateLabelRoundTrip(v: VariableDay)
    requires 0 <= v.year < 10000 && 1 <= v.month <= 12 && 1 <= v.day <= 31
    ensures |DateLabel(v)| == 10
    ensures Split(DateLabel(v), '-') == [FormatD(v.year, 4), FormatD(v.month, 2), FormatD(v.day, 2)]
    ensures ParseInt(FormatD(v.year, 4)) == Some(v.year)
    ensures ParseInt(FormatD(v.month, 2)) == Some(v.month)
    ensures ParseInt(FormatD(v.day, 2)) == Some(v.day)
  {
    var a, b, c := FormatD(v.year, 4), FormatD(v.month, 2), FormatD(v.day, 2);
    assert Pow10(4) == 10000 && Pow10(2) == 100;
    FormatDWidth(v.year, 4);
    FormatDWidth(v.month, 2);
    FormatDWidth(v.day, 2);
    FormatDChars(v.year, 4);
    FormatDChars(v.month, 2);
    FormatDChars(v.day, 2);
    assert DateLabel(v) == a + ['-'] + (b + ['-'] + c);
    SplitFields(a, b + ['-'] + c, '-');
    SplitFields(b, c, '-');
    SplitField(c, '-');
    FormatDRoundTrip(v.year, 4);
    FormatDRoundTrip(v.month, 2);
    FormatDRoundTrip(v.day, 2);
  }
}
