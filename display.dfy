/** How the countdown's fields are shown: each field is turned into its decimal
    string, as JavaScript's `String` does for an integer, and then padded on the
    left with `'0'` to at least two characters, as `padStart(2, "0")` does. */
module Display {
  import opened Countdown

  predicate IsDigit(c: char) {
    '0' <= c <= '9'
  }

  predicate AllDigits(s: string) {
    forall i :: 0 <= i < |s| ==> IsDigit(s[i])
  }

  function DigitChar(d: int): (c: char)
    requires 0 <= d < 10
    ensures IsDigit(c)
  {
    (48 + d) as char
  }

  function DigitValue(c: char): (d: int)
    requires IsDigit(c)
    ensures 0 <= d < 10
    ensures DigitChar(d) == c
  {
    c as int - 48
  }

  /** The decimal digits of a natural number, most significant first, with no
      leading zero. */
  function Digits(n: nat): (s: string)
    ensures |s| >= 1 && AllDigits(s)
    ensures s[0] == '0' <==> n == 0
    ensures |s| == 1 <==> n < 10
    decreases n
  {
    if n < 10 then [DigitChar(n)] else Digits(n / 10) + [DigitChar(n % 10)]
  }

  /** `String(n)` for an integer `n`: the decimal digits, with a minus sign in front
      of those of a negative one. `DecimalStringReadBack` shows that it reads back as `n`. */
  function DecimalString(n: int): (s: string)
    ensures |s| >= 1 && (s[0] == '-' <==> n < 0)
    ensures n >= 0 ==> AllDigits(s)
    ensures n < 0 ==> AllDigits(s[1..])
  {
    if n < 0 then
      var s := "-" + Digits(-n);
      assert s[1..] == Digits(-n);
      s
    else
      Digits(n)
  }

  function Repeat(c: char, k: nat): (r: string)
    ensures |r| == k
    ensures forall i :: 0 <= i < k ==> r[i] == c
  {
    if k == 0 then [] else [c] + Repeat(c, k - 1)
  }

  /** `s.padStart(width, fill)` with a one-character fill: a string already at least
      `width` long comes back unchanged; a shorter one is preceded by enough copies of
      `fill` to make it exactly `width` long. Lengths are counted in `char`s, where
      JavaScript counts UTF-16 code units; the two agree on the decimal strings the
      countdown pads. */
  function PadStart(s: string, width: nat, fill: char): (r: string)
    ensures |r| == if |s| >= width then |s| else width
    ensures r[|r| - |s|..] == s
    ensures forall i :: 0 <= i < |r| - |s| ==> r[i] == fill
  {
    if |s| >= width then s else Repeat(fill, width - |s|) + s
  }

  /** One countdown cell: `String(value).padStart(2, "0")`. */
  function FormatField(n: int): (r: string)
    ensures |r| == if |DecimalString(n)| >= 2 then |DecimalString(n)| else 2
    ensures n >= 0 ==> AllDigits(r)
    ensures 0 <= n < 100 ==> |r| == 2
  {
    AtMostTwoDigits(n);
    PadStart(DecimalString(n), 2, '0')
  }

  /** The four cells the countdown shows, days first. The days cell is at least two
      characters wide, and for a normalized record the hours, minutes and seconds
      cells are exactly two; `CellsReadBack` shows that each cell reads back as its field. */
  function Cells(t: TimeRemaining): (r: seq<string>)
    ensures |r| == 4
    ensures |r[0]| >= 2
    ensures Normalized(t) ==> |r[1]| == 2 && |r[2]| == 2 && |r[3]| == 2
  {
    var r := [FormatField(t.days), FormatField(t.hours), FormatField(t.minutes), FormatField(t.seconds)];
    assert r[0] == FormatField(t.days) && r[1] == FormatField(t.hours);
    assert r[2] == FormatField(t.minutes) && r[3] == FormatField(t.seconds);
    r
  }

  /** Reading a string of digits as a decimal number. */
  function ParseDigits(s: string): nat
    requires AllDigits(s)
  {
    if s == [] then 0 else ParseDigits(s[..|s| - 1]) * 10 + DigitValue(s[|s| - 1])
  }

  /** Reading the digits back gives the number. */
  lemma {:induction false} ParseDigitsOfDigits(n: nat)
    ensures ParseDigits(Digits(n)) == n
    decreases n
  {
    var s := Digits(n);
    if n >= 10 {
      ParseDigitsOfDigits(n / 10);
      assert s[..|s| - 1] == Digits(n / 10);
    }
  }

  /** `String(n)` reads back as `n`: its digits give `n`, or `-n` after the minus sign. */
  lemma DecimalStringReadBack(n: int)
    ensures n >= 0 ==> ParseDigits(DecimalString(n)) == n
    ensures n < 0 ==> ParseDigits(DecimalString(n)[1..]) == -n
  {
    if n < 0 {
      ParseDigitsOfDigits(-n);
      assert DecimalString(n)[1..] == Digits(-n);
    } else {
      ParseDigitsOfDigits(n);
    }
  }

  /** A leading zero does not change the number a string of digits reads as. */
  lemma {:induction false} ParseLeadingZero(s: string)
    requires AllDigits(s)
    ensures AllDigits(['0'] + s) && ParseDigits(['0'] + s) == ParseDigits(s)
    decreases |s|
  {
    if s != [] {
      var init := s[..|s| - 1];
      ParseLeadingZero(init);
      assert (['0'] + s)[..|s|] == ['0'] + init;
    }
  }

  /** A value from 0 to 9 shows as a single `'0'` followed by its digit. */
  lemma FormatSingleDigit(n: int)
    requires 0 <= n < 10
    ensures FormatField(n) == ['0', DigitChar(n)]
  {
  }

  /** A value of 10 or more shows as its plain decimal string. */
  lemma FormatSeveralDigits(n: int)
    requires n >= 10
    ensures FormatField(n) == Digits(n)
  {
  }

  /** Any non-negative value shows as at most one leading zero before its digits, and
      the cell reads back as the value. */
  lemma FormatRoundTrip(n: nat)
    ensures AllDigits(FormatField(n))
    ensures ParseDigits(FormatField(n)) == n
  {
    ParseDigitsOfDigits(n);
    if n < 10 {
      ParseLeadingZero(Digits(n));
      assert FormatField(n) == ['0'] + Digits(n);
    }
  }

  /** Every cell of a non-negative countdown is all digits and reads back as its
      field, which also fixes the order of the cells. */
  lemma CellsReadBack(t: TimeRemaining)
    requires t.days >= 0 && t.hours >= 0 && t.minutes >= 0 && t.seconds >= 0
    ensures AllDigits(Cells(t)[0]) && ParseDigits(Cells(t)[0]) == t.days
    ensures AllDigits(Cells(t)[1]) && ParseDigits(Cells(t)[1]) == t.hours
    ensures AllDigits(Cells(t)[2]) && ParseDigits(Cells(t)[2]) == t.minutes
    ensures AllDigits(Cells(t)[3]) && ParseDigits(Cells(t)[3]) == t.seconds
  {
    var cells := Cells(t);
    assert cells[0] == FormatField(t.days) && cells[1] == FormatField(t.hours);
    assert cells[2] == FormatField(t.minutes) && cells[3] == FormatField(t.seconds);
    FormatRoundTrip(t.days);
    FormatRoundTrip(t.hours);
    FormatRoundTrip(t.minutes);
    FormatRoundTrip(t.seconds);
  }

  lemma AtMostTwoDigits(n: int)
    ensures 0 <= n < 100 ==> |Digits(n)| <= 2
  {
    if 10 <= n < 100 {
      assert Digits(n) == Digits(n / 10) + [DigitChar(n % 10)];
    }
  }
}
