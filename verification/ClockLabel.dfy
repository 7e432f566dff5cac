/**
 The countdown label of the Pomodoro tab: remaining seconds are split with
 Python's `divmod(t, 60)` and each part is printed with the `02` format
 specification (at least two digits, zero-padded), joined by a colon.
 `LabelSeconds` reads such a label back and is the partner of `Format`.
 */
module ClockLabel {

  /** The decimal digit character for a value below ten. */
  function DigitChar(d: nat): (c: char)
    requires d < 10
    ensures '0' <= c <= '9'
  {
    ('0' as int + d) as char
  }

  predicate IsDigit(c: char) {
    '0' <= c <= '9'
  }

  predicate AllDigits(s: string) {
    forall i :: 0 <= i < |s| ==> IsDigit(s[i])
  }

  function DigitValue(c: char): (d: nat)
    requires IsDigit(c)
    ensures d < 10 && DigitChar(d) == c
  {
    c as int - '0' as int
  }

  /** Python's `divmod` with a positive divisor: floor quotient and remainder. */
  function DivMod60(t: nat): (r: (nat, nat))
    ensures r.0 * 60 + r.1 == t && r.1 < 60
  {
    (t / 60, t % 60)
  }

  /** `str(n)` for a non-negative integer: its decimal digits, most significant first. */
  function Decimal(n: nat): string
    decreases n
  {
    if n < 10 then [DigitChar(n)] else Decimal(n / 10) + [DigitChar(n % 10)]
  }

  /** The number a string of decimal digits denotes. */
  function DecimalValue(s: string): nat
    requires AllDigits(s)
    decreases |s|
  {
    if s == [] then 0 else DecimalValue(s[..|s| - 1]) * 10 + DigitValue(s[|s| - 1])
  }

  /** `f"{n:02}"`: the decimal form of `n`, padded on the left with '0' to two characters. */
  function Pad2(n: nat): string {
    if n < 10 then ['0'] + Decimal(n) else Decimal(n)
  }

  /** The label text `f"{mins:02}:{secs:02}"` with `mins, secs = divmod(t, 60)`. */
  function Format(t: nat): string {
    var (mins, secs) := DivMod60(t);
    Pad2(mins) + [':'] + Pad2(secs)
  }

  /** A label of the shape the countdown shows while below 100 minutes: "MM:SS". */
  predicate WellFormedLabel(s: string) {
    && |s| == 5
    && IsDigit(s[0]) && IsDigit(s[1]) && s[2] == ':'
    && IsDigit(s[3]) && IsDigit(s[4]) && s[3] <= '5'
  }

  /** The number of seconds a well-formed "MM:SS" label stands for. */
  function LabelSeconds(s: string): nat
    requires WellFormedLabel(s)
  {
    (DigitValue(s[0]) * 10 + DigitValue(s[1])) * 60 + DigitValue(s[3]) * 10 + DigitValue(s[4])
  }

  /** `str(n)` is a non-empty string of digits denoting `n`, with one digit exactly below ten. */
  lemma {:induction false} DecimalRoundTrip(n: nat)
    ensures AllDigits(Decimal(n)) && DecimalValue(Decimal(n)) == n
    ensures |Decimal(n)| >= 1 && (|Decimal(n)| == 1 <==> n < 10)
    decreases n
  {
    if n >= 10 {
      DecimalRoundTrip(n / 10);
      var s := Decimal(n);
      assert s[..|s| - 1] == Decimal(n / 10);
    }
  }

  /** Zero padding keeps the value and gives exactly two digits below one hundred. */
  lemma Pad2TwoDigits(n: nat)
    requires n < 100
    ensures |Pad2(n)| == 2 && AllDigits(Pad2(n))
    ensures Pad2(n) == [DigitChar(n / 10), DigitChar(n % 10)]
  {
    if n >= 10 {
      assert Decimal(n / 10) == [DigitChar(n / 10)];
    }
  }

  /** Padding never shortens the number and never loses its value: at least two digits, always. */
  lemma Pad2Value(n: nat)
    ensures AllDigits(Pad2(n)) && DecimalValue(Pad2(n)) == n
    ensures |Pad2(n)| >= 2 && (|Pad2(n)| == 2 <==> n < 100)
  {
    DecimalRoundTrip(n);
    if n < 10 {
      assert Pad2(n) == [DigitChar(n / 10), DigitChar(n % 10)];
    } else {
      DecimalRoundTrip(n / 10);
      assert |Decimal(n)| == |Decimal(n / 10)| + 1;
    }
  }

  /** The seconds part is always exactly two digits after the last colon, and the minutes
      part is everything before it. */
  lemma FormatShape(t: nat)
    ensures |Format(t)| >= 5
    ensures Format(t)[|Format(t)| - 3] == ':'
    ensures Format(t)[..|Format(t)| - 3] == Pad2(t / 60)
    ensures Format(t)[|Format(t)| - 2..] == Pad2(t % 60)
  {
    Pad2Value(t / 60);
    Pad2TwoDigits(t % 60);
  }

  /** Below 100 minutes the label is five characters "MM:SS" and reads back as `t`. */
  lemma FormatRoundTrip(t: nat)
    requires t < 6000
    ensures WellFormedLabel(Format(t)) && LabelSeconds(Format(t)) == t
  {
    Pad2TwoDigits(t / 60);
    Pad2TwoDigits(t % 60);
    var s := Format(t);
    assert s == [DigitChar(t / 60 / 10), DigitChar(t / 60 % 10), ':',
                 DigitChar(t % 60 / 10), DigitChar(t % 60 % 10)];
    assert DigitChar(t % 60 / 10) <= '5';
  }

  /** Every well-formed "MM:SS" label is the label of exactly the seconds it reads as. */
  lemma LabelRoundTrip(s: string)
    requires WellFormedLabel(s)
    ensures LabelSeconds(s) < 6000 && Format(LabelSeconds(s)) == s
  {
    var mins := DigitValue(s[0]) * 10 + DigitValue(s[1]);
    var secs := DigitValue(s[3]) * 10 + DigitValue(s[4]);
    var t := LabelSeconds(s);
    assert t / 60 == mins && t % 60 == secs;
    Pad2TwoDigits(mins);
    Pad2TwoDigits(secs);
  }

  /** Distinct remaining times are never shown with the same label. */
  lemma FormatInjective(t: nat, u: nat)
    requires Format(t) == Format(u)
    ensures t == u
  {
    FormatShape(t);
    FormatShape(u);
    Pad2Value(t / 60);
    Pad2Value(u / 60);
    Pad2Value(t % 60);
    Pad2Value(u % 60);
    assert t / 60 == u / 60 && t % 60 == u % 60;
  }

  /** The full 25-minute session reads "25:00", the text the label is created with. */
  lemma FullSessionLabel()
    ensures Format(25 * 60) == "25:00"
  {
    Pad2TwoDigits(25);
    Pad2TwoDigits(0);
  }

  /** The last label the countdown loop writes, for one second left, is "00:01". */
  lemma LastSecondLabel()
    ensures Format(1) == "00:01"
  {
    Pad2TwoDigits(0);
    Pad2TwoDigits(1);
  }
}
