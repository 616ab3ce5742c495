/**
 * Character and string helpers of the Kotlin/JVM standard library that the
 * application relies on: `isBlank`, `joinToString`, and the `%02d`
 * conversion of `String.format`. Also a reader for `NN:NN[:NN]` clock text,
 * used to state what the formatted durations mean.
 */
module Text {
  import opened Wrappers

  // ---------------------------------------------------------------------------
  // Whitespace and blank strings
  // ---------------------------------------------------------------------------

  /**
   * Kotlin's `Char.isWhitespace()` on the JVM: a Java whitespace character or
   * a Unicode space separator (categories Zs, Zl, Zp).
   */
  predicate IsWhitespace(c: char) {
    || ('\t' <= c <= '\r')                   // tab, line feed, vertical tab, form feed, carriage return
    || ('\U{1C}' <= c <= '\U{1F}')           // file/group/record/unit separators
    || c == ' ' || c == '\U{A0}' || c == '\U{1680}'
    || ('\U{2000}' <= c <= '\U{200A}')
    || c == '\U{2028}' || c == '\U{2029}'
    || c == '\U{202F}' || c == '\U{205F}' || c == '\U{3000}'
  }

  /** Kotlin's `CharSequence.isBlank()`: empty, or whitespace only. */
  predicate IsBlank(s: string) {
    forall i :: 0 <= i < |s| ==> IsWhitespace(s[i])
  }

  // ---------------------------------------------------------------------------
  // Joining and splitting on a one-character separator
  // ---------------------------------------------------------------------------

  /** `parts.joinToString(separator = sep)` with no prefix. */
  function Join(parts: seq<string>, sep: char): string {
    if |parts| == 0 then ""
    else if |parts| == 1 then parts[0]
    else parts[0] + [sep] + Join(parts[1..], sep)
  }

  /** `s.split(sep)`: the maximal `sep`-free pieces between separators, always at least one. */
  function Split(s: string, sep: char): (r: seq<string>)
    ensures |r| > 0
    decreases |s|
  {
    if |s| == 0 then [""]
    else if s[0] == sep then [""] + Split(s[1..], sep)
    else
      var rest := Split(s[1..], sep);
      [[s[0]] + rest[0]] + rest[1..]
  }

  /** No piece of `parts` contains the separator. */
  predicate SepFree(parts: seq<string>, sep: char) {
    forall i :: 0 <= i < |parts| ==> sep !in parts[i]
  }

  lemma {:induction false} SplitSepFree(p: string, sep: char)
    requires sep !in p
    ensures Split(p, sep) == [p]
    decreases |p|
  {
    if |p| > 0 {
      SplitSepFree(p[1..], sep);
      assert [p[0]] + p[1..] == p;
    }
  }

  lemma {:induction false} SplitAfterPiece(p: string, t: string, sep: char)
    requires sep !in p
    ensures Split(p + [sep] + t, sep) == [p] + Split(t, sep)
    decreases |p|
  {
    var s := p + [sep] + t;
    if |p| == 0 {
      assert s[0] == sep && s[1..] == t;
    } else {
      assert s[0] == p[0] && s[1..] == p[1..] + [sep] + t;
      SplitAfterPiece(p[1..], t, sep);
      assert [p[0]] + p[1..] == p;
    }
  }

  /** Splitting undoes joining when no piece contains the separator. */
  lemma {:induction false} SplitJoin(parts: seq<string>, sep: char)
    requires |parts| > 0 && SepFree(parts, sep)
    ensures Split(Join(parts, sep), sep) == parts
    decreases |parts|
  {
    if |parts| == 1 {
      SplitSepFree(parts[0], sep);
    } else {
      SplitJoin(parts[1..], sep);
      SplitAfterPiece(parts[0], Join(parts[1..], sep), sep);
      assert [parts[0]] + parts[1..] == parts;
    }
  }

  // ---------------------------------------------------------------------------
  // Decimal numerals
  // ---------------------------------------------------------------------------

  predicate IsDigit(c: char) {
    '0' <= c <= '9'
  }

  predicate AllDigits(s: string) {
    forall i :: 0 <= i < |s| ==> IsDigit(s[i])
  }

  function DigitChar(d: int): (c: char)
    requires 0 <= d < 10
    ensures IsDigit(c) && DigitValue(c) == d
  {
    ('0' as int + d) as char
  }

  function DigitValue(c: char): int {
    c as int - '0' as int
  }

  /** The number an all-digit string denotes (most significant digit first). */
  function DecimalValue(s: string): int {
    if |s| == 0 then 0
    else DecimalValue(s[..|s| - 1]) * 10 + DigitValue(s[|s| - 1])
  }

  /** The shortest decimal numeral of `n`: ASCII digits, no leading zero. */
  function Digits(n: nat): (r: string)
    ensures |r| > 0 && AllDigits(r)
    ensures |r| == 1 <==> n < 10
    ensures n < 100 ==> |r| <= 2
    ensures n > 0 ==> r[0] != '0'
  {
    if n < 10 then [DigitChar(n)]
    else Digits(n / 10) + [DigitChar(n % 10)]
  }

  lemma {:induction false} DigitsValue(n: nat)
    ensures DecimalValue(Digits(n)) == n
  {
    if n >= 10 {
      var d := Digits(n / 10);
      DigitsValue(n / 10);
      assert (d + [DigitChar(n % 10)])[..|d|] == d;
    }
  }

  /** A leading zero does not change the value of a numeral. */
  lemma {:induction false} LeadingZero(s: string)
    ensures DecimalValue("0" + s) == DecimalValue(s)
    decreases |s|
  {
    if |s| > 0 {
      var t := "0" + s;
      assert t[..|t| - 1] == "0" + s[..|s| - 1];
      LeadingZero(s[..|s| - 1]);
    }
  }

  /**
   * `String.format("%02d", n)` with ASCII digits: at least two characters,
   * zero-padded on the left; a negative number already fills the width
   * with its sign, so it is never padded.
   */
  function Format02(n: int): (r: string)
    ensures n >= 0 ==> |r| >= 2 && AllDigits(r) && DecimalValue(r) == n
    ensures 0 <= n < 100 ==> |r| == 2
    ensures n < 0 ==> |r| >= 2 && r[0] == '-' && AllDigits(r[1..]) && DecimalValue(r[1..]) == -n
    ensures n >= 10 ==> r[0] != '0'
    ensures n < 0 ==> r[1] != '0'
  {
    if n < 0 then
      DigitsValue(-n);
      assert ("-" + Digits(-n))[1..] == Digits(-n);
      "-" + Digits(-n)
    else if n < 10 then
      DigitsValue(n);
      LeadingZero(Digits(n));
      "0" + Digits(n)
    else
      DigitsValue(n);
      Digits(n)
  }

  // ---------------------------------------------------------------------------
  // Clock text: `%02d:%02d` and `%02d:%02d:%02d`
  // ---------------------------------------------------------------------------

  /** The `%02d` rendering of each field. */
  function Render(fields: seq<int>): (r: seq<string>)
    ensures |r| == |fields|
    ensures forall i :: 0 <= i < |fields| ==> r[i] == Format02(fields[i])
  {
    if |fields| == 0 then [] else [Format02(fields[0])] + Render(fields[1..])
  }

  /** `String.format("%02d:...:%02d", fields...)`: the fields, each `%02d`, joined by ':'. */
  function ClockText(fields: seq<int>): string {
    Join(Render(fields), ':')
  }

  /** Reads back non-empty all-digit pieces as numbers; None when any piece is not one. */
  function ParseFields(parts: seq<string>): (r: Option<seq<int>>)
    ensures r.Some? ==> |r.value| == |parts|
  {
    if |parts| == 0 then Some([])
    else if |parts[0]| == 0 || !AllDigits(parts[0]) then None
    else match ParseFields(parts[1..])
      case None => None
      case Some(rest) => Some([DecimalValue(parts[0])] + rest)
  }

  /** Reads a clock text `NN:NN[:NN]` back into its fields. */
  function ReadClock(s: string): Option<seq<int>> {
    ParseFields(Split(s, ':'))
  }

  lemma {:induction false} ParseRender(fields: seq<int>)
    requires forall i :: 0 <= i < |fields| ==> fields[i] >= 0
    ensures ParseFields(Render(fields)) == Some(fields)
    decreases |fields|
  {
    if |fields| > 0 {
      var parts := Render(fields);
      assert parts == [Format02(fields[0])] + Render(fields[1..]);
      assert parts[1..] == Render(fields[1..]);
      ParseRender(fields[1..]);
      assert ParseFields(parts) == Some([DecimalValue(parts[0])] + fields[1..]);
      assert [fields[0]] + fields[1..] == fields;
    }
  }

  /** Clock text of non-negative fields reads back as exactly those fields. */
  lemma {:induction false} ReadClockText(fields: seq<int>)
    requires |fields| > 0
    requires forall i :: 0 <= i < |fields| ==> fields[i] >= 0
    ensures ReadClock(ClockText(fields)) == Some(fields)
    ensures Split(ClockText(fields), ':') == Render(fields)
  {
    var parts := Render(fields);
    forall i | 0 <= i < |parts|
      ensures ':' !in parts[i]
    {
    }
    SplitJoin(parts, ':');
    ParseRender(fields);
  }
}
