/** Human-readable labels: the execution-time text shown beside every
    flattened call and the size text of the file listing. Durations are
    whole ticks, so the rounding below is exact decimal rounding. */
module Display {
  import opened Wrappers
  import opened Numerals

  const TicksPerMillisecond: nat := 10_000
  const TicksPerSecond: nat := 10_000_000
  const Int32Max: int := 0x7FFF_FFFF
  const Int32Min: int := -0x8000_0000

  /** The execution-time cell's value, `(int)TotalMilliseconds`: truncated
      whole milliseconds. Past `int.MaxValue` the conversion is unchecked;
      the model takes the x64 result, `int.MinValue`. */
  function ExecutionMillis(t: nat): (ms: int)
    ensures Int32Min <= ms <= Int32Max
    ensures t / TicksPerMillisecond <= Int32Max ==> ms * TicksPerMillisecond <= t < (ms + 1) * TicksPerMillisecond
  {
    var whole := t / TicksPerMillisecond;
    if whole <= Int32Max then whole else Int32Min
  }

  /** The number both branches of the duration text print, in milliseconds:
      `Math.Round(TotalSeconds * 1000)`, and `Math.Round(TotalSeconds, 3)`
      scaled by 1000 */
  function RoundedMillis(t: nat): nat {
    RoundHalfEven(t, TicksPerMillisecond)
  }

  /** Three decimal digits of a number below 1000, zero-padded */
  function ThreeDigits(f: nat): (s: string)
    requires f < 1000
    ensures |s| == 3 && AllDigits(s)
  {
    [DigitChar(f / 100), DigitChar(f / 10 % 10), DigitChar(f % 10)]
  }

  /** Drops trailing '0' characters */
  function TrimZeros(s: string): (r: string)
    ensures |r| <= |s| && r == s[..|r|]
    ensures |r| > 0 ==> r[|r| - 1] != '0'
  {
    if |s| > 0 && s[|s| - 1] == '0' then TrimZeros(s[..|s| - 1]) else s
  }

  /** `Math.Round(x, 3)` printed by `ToString()`: whole seconds, then the
      decimal separator and at most three decimals with trailing zeros
      dropped. The model fixes the separator to '.', the invariant
      culture's; the program uses whatever the current culture prints. */
  function SecondsText(ms: nat): string {
    var whole, frac := ms / 1000, ms % 1000;
    if frac == 0 then NatToString(whole)
    else NatToString(whole) + "." + TrimZeros(ThreeDigits(frac))
  }

  /** `GetExecutionTimeDisplayValue` in its if form: the seconds text is
      built first and replaced by the milliseconds text under one second */
  function DurationLabel(t: nat): string {
    var shown := SecondsText(RoundedMillis(t)) + " s";
    if t < TicksPerSecond then NatToString(RoundedMillis(t)) + " ms" else shown
  }

  /** `GetExecutionTimeDisplayValue` in its one-line conditional form */
  function DurationLabelConditional(t: nat): string {
    if t < TicksPerSecond then NatToString(RoundedMillis(t)) + " ms"
    else SecondsText(RoundedMillis(t)) + " s"
  }

  /** The two written forms of the duration text agree on every duration */
  lemma DurationLabelFormsAgree(t: nat)
    ensures DurationLabel(t) == DurationLabelConditional(t)
  {
  }

  /** Position of the first `c` in `s`, or `|s|` */
  function IndexOf(s: string, c: char): (i: nat)
    ensures i <= |s|
    ensures forall k :: 0 <= k < i ==> s[k] != c
    ensures i < |s| ==> s[i] == c
  {
    if |s| == 0 then 0 else if s[0] == c then 0 else 1 + IndexOf(s[1..], c)
  }

  /** Right-pads with '0' to three characters */
  function PadZeros(s: string): (r: string)
    decreases 3 - |s|
  {
    if |s| >= 3 then s else PadZeros(s + "0")
  }

  /** Reads the number of the seconds form back as milliseconds */
  function ParseSeconds(body: string): Option<nat> {
    var i := IndexOf(body, '.');
    if i == |body| then
      if AllDigits(body) then Some(DigitsValue(body) * 1000) else None
    else ParseDecimal(body[..i], body[i + 1..])
  }

  /** Reads whole seconds and up to three decimals as milliseconds */
  function ParseDecimal(whole: string, frac: string): Option<nat> {
    if AllDigits(whole) && AllDigits(frac) && |frac| <= 3 && AllDigits(PadZeros(frac))
    then Some(DigitsValue(whole) * 1000 + DigitsValue(PadZeros(frac)))
    else None
  }

  /** Reads a duration text back as the milliseconds it shows */
  function ParseDurationLabel(s: string): Option<nat> {
    if |s| >= 3 && s[|s| - 3..] == " ms" && AllDigits(s[..|s| - 3]) then Some(DigitsValue(s[..|s| - 3]))
    else if |s| >= 2 && s[|s| - 2..] == " s" then ParseSeconds(s[..|s| - 2])
    else None
  }

  lemma {:induction false} PadZerosDigits(s: string)
    requires AllDigits(s)
    ensures AllDigits(PadZeros(s)) && (|s| <= 3 ==> |PadZeros(s)| == 3)
    decreases 3 - |s|
  {
    if |s| < 3 {
      PadZerosDigits(s + "0");
    }
  }

  /** Padding what trimming removed restores a three-digit string */
  lemma {:induction false} PadUndoesTrim(s: string)
    requires |s| <= 3
    ensures PadZeros(TrimZeros(s)) == PadZeros(s)
    decreases |s|
  {
    if |s| > 0 && s[|s| - 1] == '0' {
      var s' := s[..|s| - 1];
      PadUndoesTrim(s');
      assert s' + "0" == s;
    }
  }

  lemma ThreeDigitsValue(f: nat)
    requires f < 1000
    ensures DigitsValue(ThreeDigits(f)) == f
  {
    var s := ThreeDigits(f);
    var q, c := f / 10, f % 10;
    var a, b := q / 10, q % 10;
    assert f == q * 10 + c;
    assert q == a * 10 + b;
    assert a == f / 100;
    assert DigitValue(s[0]) == a && DigitValue(s[1]) == b && DigitValue(s[2]) == c;
    assert s[..2][..1] == s[..1];
    assert s[..1][..0] == [];
    assert DigitsValue(s[..1]) == a;
    assert DigitsValue(s[..2]) == q;
  }

  /** Reading the seconds form back gives the milliseconds it was made from */
  lemma SecondsTextRoundTrip(ms: nat)
    ensures ParseSeconds(SecondsText(ms)) == Some(ms)
  {
    if ms % 1000 == 0 {
      WholeSecondsRoundTrip(ms);
    } else {
      FractionalSecondsRoundTrip(ms);
    }
  }

  lemma WholeSecondsRoundTrip(ms: nat)
    requires ms % 1000 == 0
    ensures ParseSeconds(SecondsText(ms)) == Some(ms)
  {
    var whole := ms / 1000;
    var w := NatToString(whole);
    NatToStringRoundTrip(whole);
    assert SecondsText(ms) == w;
    assert IndexOf(w, '.') == |w|;
    assert ms == whole * 1000;
  }

  lemma FractionalSecondsRoundTrip(ms: nat)
    requires ms % 1000 != 0
    ensures ParseSeconds(SecondsText(ms)) == Some(ms)
  {
    var whole, frac := ms / 1000, ms % 1000;
    var w := NatToString(whole);
    var digits := ThreeDigits(frac);
    var f := TrimZeros(digits);
    assert SecondsText(ms) == w + "." + f;
    assert AllDigits(f) && |f| <= 3 by {
      assert f == digits[..|f|];
    }
    PadZerosDigits(f);
    ParseSecondsParts(w, f);
    NatToStringRoundTrip(whole);
    PadUndoesTrim(digits);
    assert PadZeros(digits) == digits;
    ThreeDigitsValue(frac);
    assert ms == whole * 1000 + frac;
  }

  /** The seconds form splits at its point into whole seconds and up to
      three decimals, read as milliseconds after right-padding */
  lemma ParseSecondsParts(w: string, f: string)
    requires AllDigits(w) && AllDigits(f) && |f| <= 3 && AllDigits(PadZeros(f))
    ensures ParseSeconds(w + "." + f) == Some(DigitsValue(w) * 1000 + DigitsValue(PadZeros(f)))
  {
    SplitAtPoint(w, f);
    ParseAtPoint(w + "." + f, w, f);
    DecimalValue(w, f);
  }

  lemma DecimalValue(w: string, f: string)
    requires AllDigits(w) && AllDigits(f) && |f| <= 3 && AllDigits(PadZeros(f))
    ensures ParseDecimal(w, f) == Some(DigitsValue(w) * 1000 + DigitsValue(PadZeros(f)))
  {
  }

  lemma ParseAtPoint(body: string, w: string, f: string)
    requires IndexOf(body, '.') == |w| < |body| && body[..|w|] == w && body[|w| + 1..] == f
    ensures ParseSeconds(body) == ParseDecimal(w, f)
  {
  }

  /** The point of the seconds form is the first one, between the two parts */
  lemma SplitAtPoint(w: string, f: string)
    requires AllDigits(w)
    ensures var body := w + "." + f;
            && IndexOf(body, '.') == |w| < |body|
            && body[..|w|] == w && body[|w| + 1..] == f
  {
    var body := w + ("." + f);
    assert w + "." + f == body;
    IndexOfAfterDigits(w, "." + f);
    assert body[..|w|] == w;
    assert body[|w| + 1..] == f;
  }

  lemma {:induction false} IndexOfAfterDigits(w: string, rest: string)
    requires AllDigits(w) && |rest| > 0 && rest[0] == '.'
    ensures IndexOf(w + rest, '.') == |w|
  {
    if |w| > 0 {
      assert (w + rest)[1..] == w[1..] + rest;
      IndexOfAfterDigits(w[1..], rest);
    }
  }

  /** A duration text shows exactly the rounded milliseconds, whichever
      unit it uses */
  lemma DurationLabelRoundTrip(t: nat)
    ensures ParseDurationLabel(DurationLabel(t)) == Some(RoundedMillis(t))
  {
    var ms := RoundedMillis(t);
    var shown := DurationLabel(t);
    NatToStringRoundTrip(ms);
    if t < TicksPerSecond {
      var n := NatToString(ms);
      assert shown[|shown| - 3..] == " ms";
      assert shown[..|shown| - 3] == n;
    } else {
      var body := SecondsText(ms);
      assert shown[|shown| - 2..] == " s";
      assert shown[..|shown| - 2] == body;
      assert shown[|shown| - 3..] != " ms" by {
        assert shown[|shown| - 2] == ' ';
      }
      SecondsTextRoundTrip(ms);
    }
  }

  /** The unit is milliseconds exactly below one second, and seconds
      otherwise */
  lemma DurationLabelUnit(t: nat)
    ensures var shown := DurationLabel(t);
            |shown| >= 3 && (shown[|shown| - 3..] == " ms" <==> t < TicksPerSecond)
    ensures var shown := DurationLabel(t);
            t >= TicksPerSecond ==> shown[|shown| - 2..] == " s"
  {
    var shown := DurationLabel(t);
    if t >= TicksPerSecond {
      assert shown[|shown| - 2] == ' ';
    }
  }

  /** Under one second the text never shows more than 1000 ms */
  lemma MillisecondLabelBound(t: nat)
    requires t < TicksPerSecond
    ensures RoundedMillis(t) <= 1000
  {
  }

  /** The documented millisecond examples, including the rounding edge at
      999.6 ms */
  lemma DurationLabelExamples()
    ensures DurationLabel(0) == "0 ms"
    ensures DurationLabel(9_990_000) == "999 ms"
    ensures DurationLabel(9_996_000) == "1000 ms"
  {
    assert RoundedMillis(0) == 0;
    assert RoundedMillis(9_990_000) == 999;
    assert NatToString(999) == "999";
    assert RoundedMillis(9_996_000) == 1000;
    assert NatToString(1000) == "1000";
  }

  /** The documented second examples: whole seconds print no point, and
      trailing zeros of the decimals are dropped */
  lemma DurationLabelSecondsExamples()
    ensures DurationLabel(10_000_000) == "1 s"
    ensures DurationLabel(15_000_000) == "1.5 s"
    ensures DurationLabel(12_345_000) == "1.234 s"
  {
    assert RoundedMillis(10_000_000) == 1000;
    assert SecondsText(1000) == "1";
    assert RoundedMillis(15_000_000) == 1500;
    assert TrimZeros(ThreeDigits(500)) == "5";
    assert SecondsText(1500) == "1.5";
    assert RoundedMillis(12_345_000) == 1234;
    assert TrimZeros(ThreeDigits(234)) == "234";
    assert SecondsText(1234) == "1.234";
  }

  const OneKiB: nat := 1024
  const OneMiB: nat := 1024 * 1024

  /** `ConvertBytesToReadableSize`: whole kilobytes rounded up below one
      MiB, otherwise whole megabytes rounded up */
  function SizeLabel(bytes: nat): string {
    if bytes < OneMiB then NatToString(CeilDiv(bytes, OneKiB)) + " KB"
    else NatToString(CeilDiv(bytes, OneMiB)) + " MB"
  }

  /** Reads a size text back as its figure and the unit's byte count */
  function ParseSizeLabel(s: string): Option<(nat, nat)> {
    if |s| >= 3 && s[|s| - 3..] == " KB" && AllDigits(s[..|s| - 3]) then Some((DigitsValue(s[..|s| - 3]), OneKiB))
    else if |s| >= 3 && s[|s| - 3..] == " MB" && AllDigits(s[..|s| - 3]) then Some((DigitsValue(s[..|s| - 3]), OneMiB))
    else None
  }

  /** A size text names a unit and a figure that bounds the size from
      above by less than one unit; kilobytes are used exactly below 1 MiB */
  lemma SizeLabelBrackets(bytes: nat)
    ensures ParseSizeLabel(SizeLabel(bytes)).Some?
    ensures var (figure, unit) := ParseSizeLabel(SizeLabel(bytes)).value;
            && (unit == OneKiB <==> bytes < OneMiB)
            && (unit == OneKiB || unit == OneMiB)
            && figure * unit >= bytes
            && (figure == 0 || (figure - 1) * unit < bytes)
  {
    var shown := SizeLabel(bytes);
    var unit := if bytes < OneMiB then OneKiB else OneMiB;
    var n := NatToString(CeilDiv(bytes, unit));
    NatToStringRoundTrip(CeilDiv(bytes, unit));
    assert shown == n + (if bytes < OneMiB then " KB" else " MB");
    assert shown[..|shown| - 3] == n;
  }

  /** In the KB branch the figure is at most 1024; in the MB branch at least 1 */
  lemma SizeFigureBounds(bytes: nat)
    ensures bytes < OneMiB ==> CeilDiv(bytes, OneKiB) <= 1024
    ensures bytes >= OneMiB ==> CeilDiv(bytes, OneMiB) >= 1
  {
  }

  lemma SizeLabelExamples()
    ensures SizeLabel(0) == "0 KB"
    ensures SizeLabel(1) == "1 KB"
    ensures SizeLabel(1_048_575) == "1024 KB"
    ensures SizeLabel(1_048_576) == "1 MB"
    ensures SizeLabel(1_048_577) == "2 MB"
  {
    assert CeilDiv(0, OneKiB) == 0 && NatToString(0) == "0";
    assert CeilDiv(1, OneKiB) == 1 && NatToString(1) == "1";
    assert CeilDiv(1_048_575, OneKiB) == 1024 && NatToString(1024) == "1024";
    assert CeilDiv(1_048_576, OneMiB) == 1;
    assert CeilDiv(1_048_577, OneMiB) == 2 && NatToString(2) == "2";
  }
}
