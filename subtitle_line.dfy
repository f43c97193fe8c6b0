/** The time label of src/components/SubtitleLine.tsx (the same `formatTime` is
    repeated in src/components/PreviewModal.tsx): integer milliseconds shown as
    `MM:SS`. */
module SubtitleLine {
  import opened JsString
  import opened Types

  /** `Math.floor(a / b)` for a positive divisor (Dafny's `/` is Euclidean,
      which floors when the divisor is positive). */
  function FloorDiv(a: int, b: int): (q: int)
    requires b > 0
    ensures q * b <= a < q * b + b
  {
    a / b
  }

  /** JavaScript's `%`: the remainder takes the sign of the dividend. */
  function JsRem(a: int, b: int): (r: int)
    requires b > 0
    ensures a >= 0 ==> r == a % b && 0 <= r < b
    ensures a < 0 ==> -b < r <= 0
  {
    if a >= 0 then a % b else -((-a) % b)
  }

  /** `formatTime`: whole minutes and the seconds left over, each written in
      decimal and padded with zeros to two characters. */
  function FormatTime(timeMs: int): string {
    var seconds := FloorDiv(timeMs, 1000);
    var minutes := FloorDiv(seconds, 60);
    var remainingSeconds := JsRem(seconds, 60);
    PadStart(IntToString(minutes), 2, '0') + ":" + PadStart(IntToString(remainingSeconds), 2, '0')
  }

  /** The label `start - end` shown for a caption. */
  function TimeRange(sub: Subtitle): string {
    FormatTime(sub.start) + " - " + FormatTime(sub.end)
  }

  /** Flooring twice is flooring once by the product. */
  lemma FloorDivTwice(ms: nat)
    ensures FloorDiv(FloorDiv(ms, 1000), 60) == ms / 60000
  {
    var s := ms / 1000;
    var m := s / 60;
    assert ms == 1000 * s + ms % 1000;
    assert s == 60 * m + s % 60;
    assert ms == 60000 * m + (1000 * (s % 60) + ms % 1000);
    assert 0 <= 1000 * (s % 60) + ms % 1000 < 60000;
  }

  /** A digit string padded to two places reads as the same number. */
  lemma PaddedDigits(n: nat)
    ensures var p := PadStart(NatToString(n), 2, '0');
      |p| >= 2 && AllDigits(p) && DigitsValue(p) == n
  {
    NatToStringRoundTrip(n);
    var s := NatToString(n);
    if |s| < 2 {
      var p := PadStart(s, 2, '0');
      assert p == ['0', s[0]];
      DigitsValueOfTwo(p);
      DigitsValueOfTwo(['0', s[0]]);
      assert DigitsValue(s) == DigitValue(s[0]) by {
        assert s[..0] == [];
      }
    }
  }

  /** For a non-negative time the label is the padded whole minutes and the
      padded seconds within the minute. */
  lemma FormatTimeOfNat(ms: nat)
    ensures FormatTime(ms) ==
      PadStart(NatToString(ms / 60000), 2, '0') + ":" + PadStart(NatToString((ms / 1000) % 60), 2, '0')
  {
    FloorDivTwice(ms);
  }

  /** The seconds within a minute always take exactly two characters. */
  lemma SecondsTwoWide(n: nat)
    requires n < 60
    ensures |PadStart(NatToString(n), 2, '0')| == 2
  {
    if |NatToString(n)| > 2 {
      NatToStringRoundTrip(n);
      DigitsValueAtLeast(NatToString(n));
    }
  }

  /** `r` is a label whose part before the colon is at least two digits reading
      as `m` and whose part after it is exactly two digits reading as `sec`. */
  predicate LabelReadsAs(r: string, m: nat, sec: nat) {
    && |r| >= 5 && r[|r| - 3] == ':'
    && AllDigits(r[..|r| - 3]) && DigitsValue(r[..|r| - 3]) == m
    && AllDigits(r[|r| - 2..]) && DigitsValue(r[|r| - 2..]) == sec
  }

  /** Two digit fields around a colon read back as the numbers they spell. */
  lemma LabelParts(mm: string, ss: string, m: nat, sec: nat)
    requires |mm| >= 2 && |ss| == 2 && AllDigits(mm) && AllDigits(ss)
    requires DigitsValue(mm) == m && DigitsValue(ss) == sec
    ensures LabelReadsAs(mm + ":" + ss, m, sec)
  {
    var r := mm + ":" + ss;
    assert r[..|r| - 3] == mm;
    assert r[|r| - 2..] == ss;
  }

  /** A label built from `m` minutes and `sec` seconds reads back as `m` and `sec`. */
  lemma LabelReads(m: nat, sec: nat)
    requires sec < 60
    ensures LabelReadsAs(PadStart(NatToString(m), 2, '0') + ":" + PadStart(NatToString(sec), 2, '0'), m, sec)
  {
    var mm := PadStart(NatToString(m), 2, '0');
    var ss := PadStart(NatToString(sec), 2, '0');
    PaddedDigits(m);
    PaddedDigits(sec);
    SecondsTwoWide(sec);
    LabelParts(mm, ss, m, sec);
  }

  /** For a non-negative time the label is `M:SS`: the part before the colon is
      at least two digits and reads as the whole minutes (`⌊ms / 60000⌋`, with no
      rollover into hours), the part after it is exactly two digits reading as
      the seconds within the minute (0 to 59); milliseconds are dropped. */
  lemma FormatTimeFields(ms: nat)
    ensures LabelReadsAs(FormatTime(ms), ms / 60000, (ms / 1000) % 60)
  {
    FormatTimeOfNat(ms);
    LabelReads(ms / 60000, (ms / 1000) % 60);
  }

  /** A digit string of three or more digits with no leading zero is at least 100. */
  lemma DigitsValueAtLeast(s: string)
    requires |s| >= 3 && AllDigits(s) && s[0] != '0'
    ensures DigitsValue(s) >= 100
    decreases |s|
  {
    if |s| == 3 {
      DigitsValueOfThree(s);
    } else {
      DigitsValueAtLeast(s[..|s| - 1]);
    }
  }

  /** Minutes are never cut to two digits: 1 hour, 2 minutes and 3.004 seconds
      is shown as 62 minutes and 3 seconds. */
  lemma NoHourRollover()
    ensures FormatTime(3723004) == "62:03"
  {
  }

  /** Under a second is shown as no time at all. */
  lemma SubSecondDropped()
    ensures FormatTime(999) == "00:00"
  {
  }
}
