/** The subtitle loader of src/components/FileUploader.tsx: line-ending
    normalisation, the hand-written SRT parser (`manualSrtParse`), the text
    cleaner (`cleanSubtitleText`) and the pipeline of `handleSubtitleChange`
    that numbers the records and refuses a file without any. */
module FileUploader {
  import opened JsString
  import opened JsArray
  import opened Types

  // ---------------------------------------------------------------------------
  // Normalisation: `.replace(/\r\n/g, '\n').replace(/\r/g, '\n').trim()`

  function NormalizeLineEndings(text: string): string {
    Trim(ReplaceAll(ReplaceAll(text, "\r\n", "\n"), "\r", "\n"))
  }

  /** After normalisation no carriage return is left and the text has no white space at either end. */
  lemma NormalizeLineEndingsShape(text: string)
    ensures '\r' !in NormalizeLineEndings(text)
    ensures var r := NormalizeLineEndings(text);
      r == [] || (!IsWhitespace(r[0]) && !IsWhitespace(r[|r| - 1]))
  {
    var unix := ReplaceAll(ReplaceAll(text, "\r\n", "\n"), "\r", "\n");
    var i := TrimIsSlice(unix);
    var r := NormalizeLineEndings(text);
    if '\r' in r {
      var k :| 0 <= k < |r| && r[k] == '\r';
      assert unix[i + k] == '\r';
      ReplaceAllChars(ReplaceAll(text, "\r\n", "\n"), "\r", "\n", '\r');
    }
  }

  // ---------------------------------------------------------------------------
  // Block splitting: `content.split(/\n\s*\n/)`

  /** First index at or after `i` that does not hold white space (`|s|` if none). */
  function WhitespaceRunEnd(s: string, i: nat): (e: nat)
    requires i <= |s|
    ensures i <= e <= |s|
    ensures forall k :: i <= k < e ==> IsWhitespace(s[k])
    ensures e < |s| ==> !IsWhitespace(s[e])
    decreases |s| - i
  {
    if i == |s| || !IsWhitespace(s[i]) then i else WhitespaceRunEnd(s, i + 1)
  }

  /** Index of the last `\n` in `s[lo..hi]`, or -1. */
  function LastNewline(s: string, lo: nat, hi: nat): (q: int)
    requires lo <= hi <= |s|
    ensures q == -1 || (lo <= q < hi && s[q] == '\n')
    ensures forall k :: (if q == -1 then lo else q + 1) <= k < hi ==> s[k] != '\n'
    decreases hi - lo
  {
    if hi == lo then -1
    else if s[hi - 1] == '\n' then hi - 1
    else LastNewline(s, lo, hi - 1)
  }

  /** End of the match of `\n\s*\n` that starts at `p`, or `p` itself when none
      starts there. `\s*` is greedy, so the match runs to the last `\n` of the
      white-space run that follows the first `\n`. */
  function SeparatorEnd(s: string, p: nat): (e: nat)
    requires p <= |s|
    ensures p <= e <= |s|
  {
    if p < |s| && s[p] == '\n' then
      var q := LastNewline(s, p + 1, WhitespaceRunEnd(s, p + 1));
      if q == -1 then p else q + 1
    else p
  }

  /** Leftmost position at or after `p` where a separator match starts (`|s|` if none). */
  function FirstSeparator(s: string, p: nat): (i: nat)
    requires p <= |s|
    ensures p <= i <= |s|
    ensures i < |s| ==> SeparatorEnd(s, i) > i
    ensures forall k :: p <= k < i ==> SeparatorEnd(s, k) == k
    decreases |s| - p
  {
    if p == |s| then |s|
    else if SeparatorEnd(s, p) > p then p
    else FirstSeparator(s, p + 1)
  }

  /** `s.split(/\n\s*\n/)` */
  function SplitBlocks(s: string): (blocks: seq<string>)
    ensures |blocks| >= 1
    decreases |s|
  {
    var i := FirstSeparator(s, 0);
    if i == |s| then [s]
    else [s[..i]] + SplitBlocks(s[SeparatorEnd(s, i)..])
  }

  /** Two line breaks with nothing but white space between them: a blank line. */
  ghost predicate HasBlankLine(b: string) {
    exists p, q :: 0 <= p < q < |b| && b[p] == '\n' && b[q] == '\n' && AllWhitespace(b[p + 1..q])
  }

  /** A blank line starting at `p` in `s` means a separator match starts at `p`. */
  lemma BlankLineIsSeparator(s: string, p: nat, q: nat)
    requires p < q < |s| && s[p] == '\n' && s[q] == '\n' && AllWhitespace(s[p + 1..q])
    ensures SeparatorEnd(s, p) > p
  {
  }

  lemma SliceOfPrefix(s: string, i: nat, a: nat, b: nat)
    requires a <= b <= i <= |s|
    ensures s[..i][a..b] == s[a..b]
  {
  }

  /** The text before the first separator match has no blank line. */
  lemma FirstBlockHasNoBlankLine(s: string)
    ensures !HasBlankLine(s[..FirstSeparator(s, 0)])
  {
    var first := s[..FirstSeparator(s, 0)];
    if HasBlankLine(first) {
      var p, q :| 0 <= p < q < |first| && first[p] == '\n' && first[q] == '\n' && AllWhitespace(first[p + 1..q]);
      SliceOfPrefix(s, FirstSeparator(s, 0), p + 1, q);
      BlankLineIsSeparator(s, p, q);
    }
  }

  /** The `k`-th block of the split has no blank line. */
  lemma {:induction false} SplitBlockHasNoBlankLine(s: string, k: nat)
    requires k < |SplitBlocks(s)|
    ensures !HasBlankLine(SplitBlocks(s)[k])
    decreases |s|
  {
    var i := FirstSeparator(s, 0);
    if k == 0 {
      FirstBlockHasNoBlankLine(s);
      if i == |s| {
        assert s[..i] == s;
      }
    } else {
      SplitBlocksStep(s);
      SplitBlockHasNoBlankLine(s[SeparatorEnd(s, i)..], k - 1);
    }
  }

  /** No block produced by the split contains a blank line: every blank line of
      the input was consumed as a separator. */
  lemma SplitBlocksHaveNoBlankLine(s: string)
    ensures forall k :: 0 <= k < |SplitBlocks(s)| ==> !HasBlankLine(SplitBlocks(s)[k])
  {
    forall k | 0 <= k < |SplitBlocks(s)| {
      SplitBlockHasNoBlankLine(s, k);
    }
  }

  /** A text without a blank line is one single block. */
  lemma NoBlankLineIsOneBlock(s: string)
    requires !HasBlankLine(s)
    ensures SplitBlocks(s) == [s]
  {
  }

  /** What a separator match is: a line break, white space, a line break. */
  predicate IsSeparatorText(t: string) {
    |t| >= 2 && t[0] == '\n' && t[|t| - 1] == '\n' && AllWhitespace(t)
  }

  /** Where a separator match starts, the characters it consumes form a separator. */
  lemma SeparatorMatch(s: string, i: nat)
    requires i <= |s| && SeparatorEnd(s, i) > i
    ensures IsSeparatorText(s[i..SeparatorEnd(s, i)])
  {
    var w := WhitespaceRunEnd(s, i + 1);
    var q := LastNewline(s, i + 1, w);
    var t := s[i..SeparatorEnd(s, i)];
    assert SeparatorEnd(s, i) == q + 1;
    forall k | 0 <= k < |t|
      ensures IsWhitespace(t[k])
    {
      assert t[k] == s[i + k];
    }
  }

  /** The separator matches the split consumes, in order: one between each two blocks. */
  function SplitSeparators(s: string): (seps: seq<string>)
    ensures |seps| + 1 == |SplitBlocks(s)|
    decreases |s|
  {
    var i := FirstSeparator(s, 0);
    if i == |s| then []
    else [s[i..SeparatorEnd(s, i)]] + SplitSeparators(s[SeparatorEnd(s, i)..])
  }

  /** Blocks and the separators between them, put back together:
      `blocks[0] + seps[0] + blocks[1] + … + blocks[n]`. */
  function Interleave(blocks: seq<string>, seps: seq<string>): string
    requires |seps| + 1 == |blocks|
    decreases |seps|
  {
    if seps == [] then blocks[0]
    else blocks[0] + seps[0] + Interleave(blocks[1..], seps[1..])
  }

  /** One step of the split: the first block, the first separator, and the split of the rest. */
  lemma SplitBlocksStep(s: string)
    requires FirstSeparator(s, 0) < |s|
    ensures var i := FirstSeparator(s, 0);
      var e := SeparatorEnd(s, i);
      && SplitBlocks(s) == [s[..i]] + SplitBlocks(s[e..])
      && SplitSeparators(s) == [s[i..e]] + SplitSeparators(s[e..])
  {
  }

  /** Every separator the split consumed is a line break, white space and a line break. */
  lemma {:induction false} SplitSeparatorsAreSeparators(s: string)
    ensures forall k :: 0 <= k < |SplitSeparators(s)| ==> IsSeparatorText(SplitSeparators(s)[k])
    decreases |s|
  {
    var i := FirstSeparator(s, 0);
    if i < |s| {
      var e := SeparatorEnd(s, i);
      SplitSeparatorsAreSeparators(s[e..]);
      SeparatorMatch(s, i);
      SplitBlocksStep(s);
    }
  }

  lemma ThreeSlices(s: string, i: nat, e: nat)
    requires i <= e <= |s|
    ensures s[..i] + s[i..e] + s[e..] == s
  {
  }

  /** The split loses and reorders nothing: the blocks with the consumed
      separators between them rebuild the text exactly. */
  lemma {:induction false} SplitBlocksLossless(s: string)
    ensures Interleave(SplitBlocks(s), SplitSeparators(s)) == s
    decreases |s|
  {
    var i := FirstSeparator(s, 0);
    if i < |s| {
      var e := SeparatorEnd(s, i);
      var rest := s[e..];
      var blocks, seps := SplitBlocks(s), SplitSeparators(s);
      SplitBlocksStep(s);
      SplitBlocksLossless(rest);
      assert blocks[1..] == SplitBlocks(rest) && seps[1..] == SplitSeparators(rest);
      assert Interleave(blocks, seps) == s[..i] + s[i..e] + rest;
      ThreeSlices(s, i, e);
    }
  }

  /** `b` opens with a match of `\s*\n`: a line break within its leading white space. */
  ghost predicate OpensWithBreak(b: string) {
    exists q :: 0 <= q < |b| && b[q] == '\n' && AllWhitespace(b[..q])
  }

  /** `b` closes with a match of `\n\s*`: a line break within its trailing white space. */
  ghost predicate ClosesWithBreak(b: string) {
    exists q :: 0 <= q < |b| && b[q] == '\n' && AllWhitespace(b[q + 1..])
  }

  /** The leftmost match starts at the first line break of its blank line, so the
      block before it does not end in a line break and white space. */
  lemma FirstBlockClosesWithoutBreak(s: string)
    requires FirstSeparator(s, 0) < |s|
    ensures !ClosesWithBreak(s[..FirstSeparator(s, 0)])
  {
    var i := FirstSeparator(s, 0);
    var b := s[..i];
    if ClosesWithBreak(b) {
      var q :| 0 <= q < |b| && b[q] == '\n' && AllWhitespace(b[q + 1..]);
      SliceOfPrefix(s, i, q + 1, i);
      SeparatorMatch(s, i);
      BlankLineIsSeparator(s, q, i);
    }
  }

  /** The greedy `\s*` runs to the last line break of the white space, so the
      text after a separator does not open with white space and a line break. */
  lemma RestOpensWithoutBreak(s: string, i: nat)
    requires i < |s| && SeparatorEnd(s, i) > i
    ensures !OpensWithBreak(s[SeparatorEnd(s, i)..])
  {
    var w := WhitespaceRunEnd(s, i + 1);
    var q := LastNewline(s, i + 1, w);
    var e := SeparatorEnd(s, i);
    var rest := s[e..];
    assert e == q + 1 && e <= w;
  }

  /** A prefix of a text that does not open with a break does not either. */
  lemma PrefixOpensWithoutBreak(rest: string, n: nat)
    requires n <= |rest| && !OpensWithBreak(rest)
    ensures !OpensWithBreak(rest[..n])
  {
    var b := rest[..n];
    if OpensWithBreak(b) {
      var r :| 0 <= r < |b| && b[r] == '\n' && AllWhitespace(b[..r]);
      SliceOfPrefix(rest, n, 0, r);
    }
  }

  /** One step of the split, as its definition reads. */
  lemma SplitBlocksUnfold(s: string)
    ensures var i := FirstSeparator(s, 0);
      && (i == |s| ==> SplitBlocks(s) == [s])
      && (i < |s| ==> SplitBlocks(s) == [s[..i]] + SplitBlocks(s[SeparatorEnd(s, i)..]))
  {
  }

  /** The first block is the text before the first separator match. */
  lemma FirstBlock(s: string)
    ensures SplitBlocks(s)[0] == s[..FirstSeparator(s, 0)]
  {
  }

  /** A block after the first is a block of the text after the first separator. */
  lemma SplitBlocksTail(s: string, k: nat)
    requires 0 < k < |SplitBlocks(s)|
    ensures FirstSeparator(s, 0) < |s|
    ensures var rest := s[SeparatorEnd(s, FirstSeparator(s, 0))..];
      k - 1 < |SplitBlocks(rest)| && SplitBlocks(s)[k] == SplitBlocks(rest)[k - 1]
  {
    var i := FirstSeparator(s, 0);
    SplitBlocksUnfold(s);
    var rest := s[SeparatorEnd(s, i)..];
    var tail := SplitBlocks(rest);
    assert SplitBlocks(s) == [s[..i]] + tail;
    assert SplitBlocks(s)[k] == tail[k - 1];
  }

  /** A block after the first is the first block of the text after some separator match. */
  lemma {:induction false} BlockAfterSeparator(s: string, k: nat) returns (t: string, i: nat)
    requires 0 < k < |SplitBlocks(s)|
    ensures i < |t| && SeparatorEnd(t, i) > i
    ensures SplitBlocks(s)[k] == SplitBlocks(t[SeparatorEnd(t, i)..])[0]
    decreases |s|
  {
    SplitBlocksTail(s, k);
    var first := FirstSeparator(s, 0);
    if k == 1 {
      t, i := s, first;
    } else {
      t, i := BlockAfterSeparator(s[SeparatorEnd(s, first)..], k - 1);
    }
  }

  /** A block before the last is the first block of a text with a separator match. */
  lemma {:induction false} BlockBeforeSeparator(s: string, k: nat) returns (t: string)
    requires k + 1 < |SplitBlocks(s)|
    ensures FirstSeparator(t, 0) < |t|
    ensures SplitBlocks(s)[k] == SplitBlocks(t)[0]
    decreases |s|
  {
    SplitBlocksTail(s, k + 1);
    if k == 0 {
      t := s;
    } else {
      SplitBlocksTail(s, k);
      t := BlockBeforeSeparator(s[SeparatorEnd(s, FirstSeparator(s, 0))..], k - 1);
    }
  }

  /** Every block after the first opens without white space holding a line break. */
  lemma SplitBlockOpens(s: string, k: nat)
    requires 0 < k < |SplitBlocks(s)|
    ensures !OpensWithBreak(SplitBlocks(s)[k])
  {
    var t, i := BlockAfterSeparator(s, k);
    var rest := t[SeparatorEnd(t, i)..];
    RestOpensWithoutBreak(t, i);
    FirstBlock(rest);
    PrefixOpensWithoutBreak(rest, FirstSeparator(rest, 0));
  }

  /** Every block before the last closes without white space holding a line break. */
  lemma SplitBlockCloses(s: string, k: nat)
    requires k + 1 < |SplitBlocks(s)|
    ensures !ClosesWithBreak(SplitBlocks(s)[k])
  {
    var t := BlockBeforeSeparator(s, k);
    FirstBlock(t);
    FirstBlockClosesWithoutBreak(t);
  }

  /** The split matches `\n\s*\n` leftmost and greedily: every block after the
      first opens without white space holding a line break, and every block
      before the last closes without one. */
  lemma SplitBlockEdges(s: string, k: nat)
    requires k < |SplitBlocks(s)|
    ensures k > 0 ==> !OpensWithBreak(SplitBlocks(s)[k])
    ensures k + 1 < |SplitBlocks(s)| ==> !ClosesWithBreak(SplitBlocks(s)[k])
  {
    if k > 0 {
      SplitBlockOpens(s, k);
    }
    if k + 1 < |SplitBlocks(s)| {
      SplitBlockCloses(s, k);
    }
  }

  // ---------------------------------------------------------------------------
  // The timecode: an unanchored search for
  // `(\d{2}):(\d{2}):(\d{2}),(\d{3})\s*-->\s*(\d{2}):(\d{2}):(\d{2}),(\d{3})`

  /** `(H*3600 + M*60 + S)*1000 + ms` */
  function StampMillis(h: nat, m: nat, s: nat, ms: nat): nat {
    (h * 3600 + m * 60 + s) * 1000 + ms
  }

  /** The largest value a `HH:MM:SS,mmm` stamp can denote: 99:99:99,999. */
  const MaxStamp: nat := 362439999

  /** The twelve characters `w` read as `HH:MM:SS,mmm` (comma before the
      milliseconds), in milliseconds. */
  function StampOf(w: string): (v: Option<nat>)
    ensures v.Some? ==> v.value <= MaxStamp
  {
    if |w| == 12
      && AllDigits(w[0..2]) && w[2] == ':'
      && AllDigits(w[3..5]) && w[5] == ':'
      && AllDigits(w[6..8]) && w[8] == ','
      && AllDigits(w[9..12])
    then
      var h, m, s, ms := DigitsValue(w[0..2]), DigitsValue(w[3..5]), DigitsValue(w[6..8]), DigitsValue(w[9..12]);
      assert h <= 99 && m <= 99 && s <= 99 && ms <= 999;
      Some(StampMillis(h, m, s, ms))
    else None
  }

  /** A stamp at position `k` of `line`. */
  function StampAt(line: string, k: nat): (v: Option<nat>)
    ensures v.Some? ==> k + 12 <= |line| && v.value <= MaxStamp
  {
    if k + 12 <= |line| then StampOf(line[k..k + 12]) else None
  }

  datatype Timecode = Timecode(start: nat, end: nat)

  /** `-->` at position `a`. */
  predicate ArrowAt(line: string, a: nat) {
    a + 3 <= |line| && line[a] == '-' && line[a + 1] == '-' && line[a + 2] == '>'
  }

  /** `-->\s*` and the second stamp, where the arrow would start at `a`. */
  function EndAfterArrow(line: string, a: nat): Option<nat> {
    if ArrowAt(line, a) then StampAt(line, WhitespaceRunEnd(line, a + 3)) else None
  }

  /** The timecode pattern matched at exactly position `k`. Both `\s*` are
      followed by a character that is not white space, so greedy matching
      leaves no choice. */
  function TimecodeAt(line: string, k: nat): Option<Timecode> {
    match StampAt(line, k)
    case None => None
    case Some(start) =>
      match EndAfterArrow(line, WhitespaceRunEnd(line, k + 12))
      case None => None
      case Some(end) => Some(Timecode(start, end))
  }

  /** `line.match(pattern)` without anchors: the leftmost position where the pattern matches. */
  function FindTimecode(line: string, k: nat): (r: Option<Timecode>)
    ensures r.Some? ==> r.value.start <= MaxStamp && r.value.end <= MaxStamp
    decreases |line| - k
  {
    if k >= |line| then None
    else match TimecodeAt(line, k)
      case Some(tc) => Some(tc)
      case None => FindTimecode(line, k + 1)
  }

  /** The separator before the milliseconds must be a comma: a line without one
      (a WebVTT-style `00:00:01.000 --> 00:00:02.000`, or `;` in its place)
      never yields a timecode. */
  lemma {:induction false} NoCommaNoTimecode(line: string, k: nat)
    requires ',' !in line
    ensures FindTimecode(line, k) == None
    decreases |line| - k
  {
    if k < |line| {
      NoCommaNoTimecode(line, k + 1);
    }
  }

  lemma SliceOfTwo(w: string, i: nat)
    requires i + 2 <= |w|
    ensures w[i..i + 2] == [w[i], w[i + 1]]
  {
  }

  lemma SliceOfThree(w: string, i: nat)
    requires i + 3 <= |w|
    ensures w[i..i + 3] == [w[i], w[i + 1], w[i + 2]]
  {
  }

  lemma StampExample(line: string, k: nat, h0: char, h1: char, m0: char, m1: char,
                     s0: char, s1: char, f0: char, f1: char, f2: char)
    requires k + 12 <= |line|
    requires line[k..k + 12] == [h0, h1, ':', m0, m1, ':', s0, s1, ',', f0, f1, f2]
    requires IsDigit(h0) && IsDigit(h1) && IsDigit(m0) && IsDigit(m1) && IsDigit(s0) && IsDigit(s1)
    requires IsDigit(f0) && IsDigit(f1) && IsDigit(f2)
    ensures StampAt(line, k) == Some(StampMillis(
      10 * DigitValue(h0) + DigitValue(h1), 10 * DigitValue(m0) + DigitValue(m1),
      10 * DigitValue(s0) + DigitValue(s1),
      100 * DigitValue(f0) + 10 * DigitValue(f1) + DigitValue(f2)))
  {
    var w := line[k..k + 12];
    WindowFields(w, h0, h1, m0, m1, s0, s1, f0, f1, f2);
    DigitsValueOfTwo([h0, h1]);
    DigitsValueOfTwo([m0, m1]);
    DigitsValueOfTwo([s0, s1]);
    DigitsValueOfThree([f0, f1, f2]);
    StampOfFields(w);
  }

  /** The four fields and three separators of a twelve-character window. */
  lemma WindowFields(w: string, h0: char, h1: char, m0: char, m1: char,
                     s0: char, s1: char, f0: char, f1: char, f2: char)
    requires w == [h0, h1, ':', m0, m1, ':', s0, s1, ',', f0, f1, f2]
    ensures w[0..2] == [h0, h1] && w[3..5] == [m0, m1] && w[6..8] == [s0, s1] && w[9..12] == [f0, f1, f2]
    ensures w[2] == ':' && w[5] == ':' && w[8] == ','
  {
    SliceOfTwo(w, 0);
    SliceOfTwo(w, 3);
    SliceOfTwo(w, 6);
    SliceOfThree(w, 9);
  }

  /** A window of digit fields with the right separators reads as its fields. */
  lemma StampOfFields(w: string)
    requires |w| == 12 && w[2] == ':' && w[5] == ':' && w[8] == ','
    requires AllDigits(w[0..2]) && AllDigits(w[3..5]) && AllDigits(w[6..8]) && AllDigits(w[9..12])
    ensures StampOf(w) == Some(StampMillis(DigitsValue(w[0..2]), DigitsValue(w[3..5]),
      DigitsValue(w[6..8]), DigitsValue(w[9..12])))
  {
  }

  /** A stamp is read from the twelve characters at its position only. */
  lemma StampAtWindow(line: string, k: nat, w: string)
    requires |w| == 12 && k + 12 <= |line| && line[k..k + 12] == w
    ensures StampAt(line, k) == StampAt(w, 0)
  {
    assert w[0..12] == w;
  }

  /** ` --> ` after a stamp at `p`, followed by a character that is not white
      space: the two white-space runs end at the arrow and at that character. */
  lemma ArrowAfterStamp(line: string, p: nat)
    requires p + 18 <= |line| && line[p + 12] == ' ' && line[p + 16] == ' ' && !IsWhitespace(line[p + 17])
    requires line[p + 13] == '-' && line[p + 14] == '-' && line[p + 15] == '>'
    ensures WhitespaceRunEnd(line, p + 12) == p + 13
    ensures ArrowAt(line, p + 13)
    ensures WhitespaceRunEnd(line, p + 16) == p + 17
  {
    assert WhitespaceRunEnd(line, p + 13) == p + 13;
    assert WhitespaceRunEnd(line, p + 17) == p + 17;
  }

  /** The characters of `a + " --> " + b` at position `p`, one by one. */
  lemma StampLineLayout(line: string, p: nat, a: string, b: string)
    requires |a| == 12 && |b| == 12 && p + 29 <= |line| && line[p..p + 29] == a + " --> " + b
    ensures line[p..p + 12] == a && line[p + 17..p + 29] == b
    ensures line[p + 12] == ' ' && line[p + 13] == '-' && line[p + 14] == '-'
    ensures line[p + 15] == '>' && line[p + 16] == ' '
  {
    var t := line[p..p + 29];
    assert forall i | 0 <= i < 29 :: line[p + i] == t[i];
    assert t[12..17] == " --> ";
    assert t[..12] == a && t[17..] == b;
  }

  /** Two stamps joined by ` --> ` at position `p` form a timecode matched there,
      whatever follows them (trailing cue settings included). */
  lemma TimecodeOfStampsAt(line: string, p: nat, a: string, b: string)
    requires |a| == 12 && |b| == 12 && p + 29 <= |line| && line[p..p + 29] == a + " --> " + b
    requires StampAt(a, 0).Some? && StampAt(b, 0).Some?
    ensures TimecodeAt(line, p) == Some(Timecode(StampAt(a, 0).value, StampAt(b, 0).value))
  {
    StampLineLayout(line, p, a, b);
    StampAtWindow(line, p, a);
    StampAtWindow(line, p + 17, b);
    assert b[0..12][0..2][0] == b[0] == line[p + 17];
    ArrowAfterStamp(line, p);
    assert EndAfterArrow(line, p + 13) == StampAt(line, p + 17);
  }

  /** Two stamps joined by ` --> ` form a timecode matched at the start of the
      line, whatever follows them (trailing cue settings included). */
  lemma TimecodeOfStamps(line: string, a: string, b: string)
    requires |a| == 12 && |b| == 12 && |line| >= 29 && line[..29] == a + " --> " + b
    requires StampAt(a, 0).Some? && StampAt(b, 0).Some?
    ensures FindTimecode(line, 0) == Some(Timecode(StampAt(a, 0).value, StampAt(b, 0).value))
  {
    assert line[0..29] == line[..29];
    TimecodeOfStampsAt(line, 0, a, b);
  }

  /** `01:02:03,004` is 3723004 milliseconds. */
  lemma StampExampleStart(start: string)
    requires start == "01:02:03,004"
    ensures StampAt(start, 0) == Some(3723004)
  {
    StampExample(start, 0, '0', '1', '0', '2', '0', '3', '0', '0', '4');
  }

  /** `01:02:05,006` is 3725006 milliseconds. */
  lemma StampExampleEnd(end: string)
    requires end == "01:02:05,006"
    ensures StampAt(end, 0) == Some(3725006)
  {
    StampExample(end, 0, '0', '1', '0', '2', '0', '5', '0', '0', '6');
  }

  /** `01:02:03,004 --> 01:02:05,006` reads as 3723004 to 3725006 milliseconds. */
  lemma TimecodeExample(start: string, end: string)
    requires start == "01:02:03,004" && end == "01:02:05,006"
    ensures FindTimecode(start + " --> " + end, 0) == Some(Timecode(3723004, 3725006))
  {
    StampExampleStart(start);
    StampExampleEnd(end);
    var line := start + " --> " + end;
    assert line[..29] == line;
    TimecodeOfStamps(line, start, end);
  }

  /** The search returns the match at the leftmost position where the pattern matches. */
  lemma {:induction false} FindTimecodeLeftmost(line: string, k: nat, j: nat)
    requires k <= j < |line| && TimecodeAt(line, j).Some?
    requires forall i :: k <= i < j ==> TimecodeAt(line, i).None?
    ensures FindTimecode(line, k) == TimecodeAt(line, j)
    decreases j - k
  {
    if k < j {
      FindTimecodeLeftmost(line, k + 1, j);
    }
  }

  /** Where the pattern matches at no position, the search finds nothing. */
  lemma {:induction false} FindTimecodeNoMatch(line: string, k: nat)
    requires forall i :: k <= i < |line| ==> TimecodeAt(line, i).None?
    ensures FindTimecode(line, k) == None
    decreases |line| - k
  {
    if k < |line| {
      FindTimecodeNoMatch(line, k + 1);
    }
  }

  /** Positions at which the pattern does not match are passed over. */
  lemma {:induction false} FindTimecodeSkip(line: string, k: nat, j: nat)
    requires k <= j <= |line|
    requires forall i :: k <= i < j ==> TimecodeAt(line, i).None?
    ensures FindTimecode(line, k) == FindTimecode(line, j)
    decreases j - k
  {
    if k < j {
      FindTimecodeSkip(line, k + 1, j);
    }
  }

  /** The search is not anchored: positions before `p` that hold no digit are passed over. */
  lemma DigitFreePrefixSkipped(line: string, p: nat)
    requires p <= |line|
    requires forall i :: 0 <= i < p ==> !IsDigit(line[i])
    ensures FindTimecode(line, 0) == FindTimecode(line, p)
  {
    forall i | 0 <= i < p
      ensures TimecodeAt(line, i).None?
    {
      if i + 12 <= |line| {
        var w := line[i..i + 12];
        assert w[0..2][0] == w[0] == line[i];
        assert !AllDigits(w[0..2]);
        assert StampAt(line, i) == None;
      }
    }
    FindTimecodeSkip(line, 0, p);
  }

  /** A prefix such as `X ` and trailing cue settings leave the timecode readable:
      `X 01:02:03,004 --> 01:02:05,006` followed by anything reads as 3723004 to 3725006. */
  lemma DecoratedTimecodeExample(start: string, end: string, settings: string)
    requires start == "01:02:03,004" && end == "01:02:05,006"
    ensures FindTimecode("X " + (start + " --> " + end + settings), 0) == Some(Timecode(3723004, 3725006))
  {
    StampExampleStart(start);
    StampExampleEnd(end);
    var line := "X " + (start + " --> " + end + settings);
    assert line[2..31] == start + " --> " + end;
    TimecodeOfStampsAt(line, 2, start, end);
    assert line[0] == 'X' && line[1] == ' ';
    DigitFreePrefixSkipped(line, 2);
    FindTimecodeLeftmost(line, 2, 2);
  }

  // ---------------------------------------------------------------------------
  // One block of `manualSrtParse`

  /** What `manualSrtParse` pushes for an accepted block. */
  datatype Cue = Cue(start: nat, end: nat, text: string)

  /** `/^\d+$/`: the sequence-number line. */
  predicate IsSequenceNumber(s: string) {
    |s| > 0 && AllDigits(s)
  }

  /** `line.trim()` is not empty, which by the contract of `Trim` means the
      line is not made of white space only (see `IsNonBlankIsTrimTest`). */
  predicate IsNonBlank(line: string) {
    !AllWhitespace(line)
  }

  lemma IsNonBlankIsTrimTest(line: string)
    ensures IsNonBlank(line) <==> Trim(line) != ""
  {
  }

  /** The text of a block: its non-blank lines after the timecode line, joined by `\n`. */
  function CueText(lines: seq<string>): string
    requires |lines| >= 2
  {
    Join(Filter(lines[2..], IsNonBlank), '\n')
  }

  /** The checks `manualSrtParse` makes on the lines of a non-empty trimmed block. */
  function ParseLines(lines: seq<string>): Option<Cue> {
    if |lines| < 3 then None
    else if !IsSequenceNumber(Trim(lines[0])) then None
    else match FindTimecode(Trim(lines[1]), 0)
      case None => None
      case Some(tc) =>
        var text := CueText(lines);
        if text == "" then None else Some(Cue(tc.start, tc.end, text))
  }

  /** The cue one block yields, or `None` when the loop skips the block. */
  function ParseBlock(raw: string): Option<Cue> {
    var block := Trim(raw);
    if block == "" then None else ParseLines(SplitOn(block, '\n'))
  }

  /** Every accepted block gives times within 0..MaxStamp (with no check that the
      end follows the start) and a non-empty text made of the block's
      non-blank lines after the timecode. */
  lemma ParseBlockResult(raw: string)
    requires ParseBlock(raw).Some?
    ensures var c := ParseBlock(raw).value;
      && c.start <= MaxStamp && c.end <= MaxStamp
      && c.text != ""
      && c.text == CueText(SplitOn(Trim(raw), '\n'))
  {
  }

  /** A block is skipped when it is blank, has fewer than three lines, has a
      first line that is not all digits, or has a second line without a
      comma-separated timecode. */
  lemma ParseBlockSkips(raw: string)
    ensures Trim(raw) == "" ==> ParseBlock(raw) == None
    ensures Trim(raw) != "" && |SplitOn(Trim(raw), '\n')| < 3 ==> ParseBlock(raw) == None
    ensures (Trim(raw) != "" && |SplitOn(Trim(raw), '\n')| >= 3
             && !IsSequenceNumber(Trim(SplitOn(Trim(raw), '\n')[0]))) ==> ParseBlock(raw) == None
    ensures (Trim(raw) != "" && |SplitOn(Trim(raw), '\n')| >= 3
             && ',' !in Trim(SplitOn(Trim(raw), '\n')[1])) ==> ParseBlock(raw) == None
  {
    var block := Trim(raw);
    if block != "" {
      var lines := SplitOn(block, '\n');
      if |lines| >= 3 && ',' !in Trim(lines[1]) {
        NoCommaNoTimecode(Trim(lines[1]), 0);
      }
    }
  }

  lemma {:induction false} JoinNonEmpty(parts: seq<string>, sep: char)
    requires |parts| > 0 && parts[|parts| - 1] != ""
    ensures Join(parts, sep) != ""
  {
    if |parts| > 1 {
      JoinNonEmpty(parts[1..], sep);
    }
  }

  /** A trimmed block's last line is not blank. */
  lemma LastLineNonBlank(block: string)
    requires block != "" && !IsWhitespace(block[|block| - 1])
    ensures var lines := SplitOn(block, '\n'); IsNonBlank(lines[|lines| - 1])
  {
    var lines := SplitOn(block, '\n');
    var last := lines[|lines| - 1];
    JoinSplit(block, '\n');
    JoinLastPieceEnd(lines, '\n');
    assert !AllWhitespace(last);
  }

  /** With a non-blank last line, the text of three lines or more is not empty. */
  lemma CueTextNonEmpty(lines: seq<string>)
    requires |lines| >= 3 && IsNonBlank(lines[|lines| - 1])
    ensures CueText(lines) != ""
  {
    var last := lines[|lines| - 1];
    var textLines := lines[2..];
    var init := textLines[..|textLines| - 1];
    assert textLines == init + [last];
    FilterAppend(init, [last], IsNonBlank);
    assert [last][1..] == [];
    assert Filter([last], IsNonBlank) == [last];
    JoinNonEmpty(Filter(textLines, IsNonBlank), '\n');
  }

  /** The `if (text)` test never skips a block: a trimmed block ends with a
      character that is not white space, so with three lines or more its last
      line is a non-blank text line. */
  lemma TextTestNeverSkips(block: string)
    requires block != "" && !IsWhitespace(block[|block| - 1])
    requires |SplitOn(block, '\n')| >= 3
    ensures CueText(SplitOn(block, '\n')) != ""
  {
    LastLineNonBlank(block);
    CueTextNonEmpty(SplitOn(block, '\n'));
  }

  /** So a block is accepted exactly when it is non-blank, has three lines or
      more, a numeric first line and a timecode on the second. */
  lemma ParseBlockAccepts(raw: string)
    ensures ParseBlock(raw).Some? <==>
      var block := Trim(raw);
      && block != ""
      && |SplitOn(block, '\n')| >= 3
      && IsSequenceNumber(Trim(SplitOn(block, '\n')[0]))
      && FindTimecode(Trim(SplitOn(block, '\n')[1]), 0).Some?
  {
    var block := Trim(raw);
    if block != "" && |SplitOn(block, '\n')| >= 3 {
      TextTestNeverSkips(block);
    }
  }

  /** Splitting three newline-free lines joined by `\n` gives them back. */
  lemma SplitThreeLines(a: string, b: string, c: string)
    requires '\n' !in a && '\n' !in b && '\n' !in c
    ensures SplitOn(a + "\n" + b + "\n" + c, '\n') == [a, b, c]
  {
    var parts := [a, b, c];
    assert parts[1..] == [b, c] && parts[1..][1..] == [c];
    assert Join([b, c], '\n') == b + "\n" + c;
    assert Join(parts, '\n') == a + "\n" + (b + "\n" + c);
    assert a + "\n" + (b + "\n" + c) == a + "\n" + b + "\n" + c;
    SplitJoin(parts, '\n');
  }

  /** A block of three newline-free lines, with no white space at either end, is parsed from those lines. */
  lemma ParseBlockOfThreeLines(raw: string, a: string, b: string, c: string)
    requires '\n' !in a && '\n' !in b && '\n' !in c
    requires raw == a + "\n" + b + "\n" + c
    requires !IsWhitespace(raw[0]) && !IsWhitespace(raw[|raw| - 1])
    ensures ParseBlock(raw) == ParseLines([a, b, c])
  {
    TrimUnchanged(raw);
    SplitThreeLines(a, b, c);
  }

  /** Three lines with a numeric first line, a timecode on the second and a
      non-blank third give a cue whose text is the third line. */
  lemma ParseThreeLines(a: string, b: string, c: string, tc: Timecode)
    requires IsSequenceNumber(Trim(a)) && FindTimecode(Trim(b), 0) == Some(tc) && IsNonBlank(c)
    ensures ParseLines([a, b, c]) == Some(Cue(tc.start, tc.end, c))
  {
    var lines := [a, b, c];
    assert lines[2..] == [c] && [c][1..] == [];
    assert Filter([c], IsNonBlank) == [c];
  }

  /** The lines of the example block give the cue 3723004..3725006 "Hello". */
  lemma ParseLinesExample(number: string, start: string, end: string, hello: string)
    requires number == "1" && start == "01:02:03,004" && end == "01:02:05,006" && hello == "Hello"
    ensures ParseLines([number, start + " --> " + end, hello]) == Some(Cue(3723004, 3725006, "Hello"))
  {
    var tcLine := start + " --> " + end;
    assert IsSequenceNumber(Trim(number)) by {
      TrimUnchanged(number);
    }
    assert FindTimecode(Trim(tcLine), 0) == Some(Timecode(3723004, 3725006)) by {
      assert tcLine[0] == start[0] && tcLine[|tcLine| - 1] == end[|end| - 1];
      TrimUnchanged(tcLine);
      TimecodeExample(start, end);
    }
    assert IsNonBlank(hello) by {
      assert !IsWhitespace(hello[0]);
    }
    ParseThreeLines(number, tcLine, hello, Timecode(3723004, 3725006));
  }

  /** A block in SRT form with the timecode of the example parses to 3723004..3725006. */
  lemma ParseBlockExample(number: string, start: string, end: string, hello: string)
    requires number == "1" && start == "01:02:03,004" && end == "01:02:05,006" && hello == "Hello"
    ensures ParseBlock(number + "\n" + (start + " --> " + end) + "\n" + hello)
         == Some(Cue(3723004, 3725006, "Hello"))
  {
    var tcLine := start + " --> " + end;
    var raw := number + "\n" + tcLine + "\n" + hello;
    assert raw[0] == number[0] && raw[|raw| - 1] == hello[|hello| - 1];
    assert '\n' !in tcLine by {
      assert tcLine == start + " --> " + end;
    }
    ParseBlockOfThreeLines(raw, number, tcLine, hello);
    ParseLinesExample(number, start, end, hello);
  }

  /** A block whose timecode uses `;` instead of `,` before the milliseconds is skipped. */
  lemma SemicolonBlockSkipped(number: string, start: string, end: string, bye: string)
    requires number == "2" && start == "00:00:03;000" && end == "00:00:04;000" && bye == "Bye"
    ensures ParseBlock(number + "\n" + (start + " --> " + end) + "\n" + bye) == None
  {
    var tcLine := start + " --> " + end;
    var raw := number + "\n" + tcLine + "\n" + bye;
    assert raw[0] == number[0] && raw[|raw| - 1] == bye[|bye| - 1];
    assert '\n' !in tcLine && ',' !in tcLine;
    ParseBlockOfThreeLines(raw, number, tcLine, bye);
    assert FindTimecode(Trim(tcLine), 0) == None by {
      assert tcLine[0] == start[0] && tcLine[|tcLine| - 1] == end[|end| - 1];
      TrimUnchanged(tcLine);
      NoCommaNoTimecode(tcLine, 0);
    }
  }

  // ---------------------------------------------------------------------------
  // The loop of `manualSrtParse`

  /** The cues of a list of blocks, in block order, skipped blocks contributing nothing. */
  function ParseBlocks(blocks: seq<string>): (cues: seq<Cue>)
    ensures |cues| <= |blocks|
  {
    Collect(blocks, ParseBlock)
  }

  /** Parsing two runs of blocks one after the other gives their cues one after the other:
      output order is block order. */
  lemma ParseBlocksAppend(xs: seq<string>, ys: seq<string>)
    ensures ParseBlocks(xs + ys) == ParseBlocks(xs) + ParseBlocks(ys)
  {
    CollectAppend(xs, ys, ParseBlock);
  }

  /** A malformed block between others is skipped and parsing continues. */
  lemma SkippedBlockIsInvisible(xs: seq<string>, bad: string, ys: seq<string>)
    requires ParseBlock(bad) == None
    ensures ParseBlocks(xs + [bad] + ys) == ParseBlocks(xs + ys)
  {
    CollectSkips(xs, bad, ys, ParseBlock);
  }

  /** Every cue the parser returns comes from one of the blocks, has both times
      within 0..MaxStamp and a non-empty text. */
  lemma ParseBlocksBounds(blocks: seq<string>, k: nat)
    requires k < |ParseBlocks(blocks)|
    ensures var c := ParseBlocks(blocks)[k];
      && (exists j :: 0 <= j < |blocks| && ParseBlock(blocks[j]) == Some(c))
      && c.start <= MaxStamp && c.end <= MaxStamp && c.text != ""
  {
    CollectFrom(blocks, ParseBlock, k);
    var j :| 0 <= j < |blocks| && ParseBlock(blocks[j]) == Some(ParseBlocks(blocks)[k]);
    ParseBlockResult(blocks[j]);
  }

  /** The body of the loop of `manualSrtParse` for one block: each early
      `return` stands for a `continue` of the loop, a `Some` for a push. */
  method ParseOneBlock(raw: string) returns (cue: Option<Cue>)
    ensures cue == ParseBlock(raw)
  {
    var block := Trim(raw);
    if block == "" {
      return None;
    }
    var lines := SplitOn(block, '\n');
    if |lines| < 3 {
      return None;
    }
    var sequenceNumber := Trim(lines[0]);
    if !IsSequenceNumber(sequenceNumber) {
      return None;
    }
    var timecodeLine := Trim(lines[1]);
    var timecodeMatch := FindTimecode(timecodeLine, 0);
    if timecodeMatch.None? {
      return None;
    }
    var text := Join(Filter(lines[2..], IsNonBlank), '\n');
    if text != "" {
      return Some(Cue(timecodeMatch.value.start, timecodeMatch.value.end, text));
    }
    return None;
  }

  /** `manualSrtParse`: the loop over the blocks, pushing the cue of every block that is not skipped. */
  method ManualSrtParse(content: string) returns (cues: seq<Cue>)
    ensures cues == ParseBlocks(SplitBlocks(content))
  {
    cues := [];
    var blocks := SplitBlocks(content);
    for i := 0 to |blocks|
      invariant cues == ParseBlocks(blocks[..i])
    {
      CollectSnoc(blocks, i, ParseBlock);
      var cue := ParseOneBlock(blocks[i]);
      if cue.Some? {
        cues := cues + [cue.value];
      }
    }
    assert blocks[..|blocks|] == blocks;
  }

  // ---------------------------------------------------------------------------
  // `cleanSubtitleText`

  /** Two characters `a` then `b` never stand side by side in `s`. */
  predicate NoPair(s: string, a: char, b: char) {
    forall i :: 0 <= i < |s| - 1 ==> !(s[i] == a && s[i + 1] == b)
  }

  /** No run of three line breaks or more in `s`. */
  predicate NoTripleNewline(s: string) {
    forall i :: 0 <= i < |s| - 2 ==> !(s[i] == '\n' && s[i + 1] == '\n' && s[i + 2] == '\n')
  }

  /** `.replace(/<[^>]*>/g, '')` (with `<`, `>`) and `.replace(/\{[^}]*\}/g, '')`
      (with `{`, `}`): an opening character starts a match exactly when a closing
      one follows it somewhere; the match runs to the first closing character. */
  function StripDelimited(s: string, open: char, close: char): (r: string)
    requires open != close
    ensures |r| <= |s|
    ensures forall i, j :: 0 <= i < j < |r| ==> !(r[i] == open && r[j] == close)
    ensures forall k :: 0 <= k < |r| ==> r[k] in s
    ensures open !in s ==> r == s
    decreases |s|
  {
    if s == [] then []
    else if s[0] == open && close in s[1..] then
      StripDelimited(s[1..][IndexOf(s[1..], close) + 1..], open, close)
    else
      var rest := StripDelimited(s[1..], open, close);
      assert forall k :: 0 <= k < |rest| ==> rest[k] in s[1..];
      assert s[0] == open ==> forall k :: 0 <= k < |rest| ==> rest[k] != close;
      assert open !in s ==> open !in s[1..] && s == [s[0]] + s[1..];
      [s[0]] + rest
  }

  /** The five entity replacements, `&amp;` first. */
  function UnescapeEntities(s: string): string {
    var amp := ReplaceAll(s, "&amp;", "&");
    var lt := ReplaceAll(amp, "&lt;", "<");
    var gt := ReplaceAll(lt, "&gt;", ">");
    var quot := ReplaceAll(gt, "&quot;", "\"");
    ReplaceAll(quot, "&#39;", "'")
  }

  /** `[ \t]`, the class of the collapsing step. */
  predicate IsBlank(c: char) {
    c == ' ' || c == '\t'
  }

  /** End of the run of characters equal to `c` that starts at `i`. */
  function RunEnd(s: string, i: nat, c: char): (e: nat)
    requires i <= |s|
    ensures i <= e <= |s|
    ensures forall k :: i <= k < e ==> s[k] == c
    ensures e < |s| ==> s[e] != c
    decreases |s| - i
  {
    if i == |s| || s[i] != c then i else RunEnd(s, i + 1, c)
  }

  /** End of the run of `[ \t]` that starts at `i`. */
  function BlankRunEnd(s: string, i: nat): (e: nat)
    requires i <= |s|
    ensures i <= e <= |s|
    ensures forall k :: i <= k < e ==> IsBlank(s[k])
    ensures e < |s| ==> !IsBlank(s[e])
    decreases |s| - i
  {
    if i == |s| || !IsBlank(s[i]) then i else BlankRunEnd(s, i + 1)
  }

  /** `.replace(/[ \t]+/g, ' ')` */
  function CollapseBlanks(s: string): (r: string)
    ensures forall k :: 0 <= k < |r| ==> (r[k] == ' ' || r[k] in s) && r[k] != '\t'
    ensures s != [] ==> r != [] && r[0] == (if IsBlank(s[0]) then ' ' else s[0])
    decreases |s|
  {
    if s == [] then []
    else if IsBlank(s[0]) then
      var rest := CollapseBlanks(s[BlankRunEnd(s, 0)..]);
      assert forall k :: 0 <= k < |rest| ==> rest[k] == ' ' || rest[k] in s;
      [' '] + rest
    else
      var rest := CollapseBlanks(s[1..]);
      assert forall k :: 0 <= k < |rest| ==> rest[k] == ' ' || rest[k] in s;
      [s[0]] + rest
  }

  /** `.replace(/\n +/g, '\n')` */
  function DropSpacesAfterNewlines(s: string): (r: string)
    ensures forall k :: 0 <= k < |r| ==> r[k] in s
    ensures s != [] ==> r != [] && r[0] == s[0]
    decreases |s|
  {
    if s == [] then []
    else if s[0] == '\n' then
      var rest := DropSpacesAfterNewlines(s[RunEnd(s, 1, ' ')..]);
      assert forall k :: 0 <= k < |rest| ==> rest[k] in s;
      ['\n'] + rest
    else
      var rest := DropSpacesAfterNewlines(s[1..]);
      assert forall k :: 0 <= k < |rest| ==> rest[k] in s;
      [s[0]] + rest
  }

  /** Whether `/ +\n/` matches at the start of `s`. */
  predicate SpacesThenNewline(s: string) {
    s != [] && s[0] == ' ' && RunEnd(s, 0, ' ') < |s| && s[RunEnd(s, 0, ' ')] == '\n'
  }

  /** `.replace(/ +\n/g, '\n')` */
  function DropSpacesBeforeNewlines(s: string): (r: string)
    ensures forall k :: 0 <= k < |r| ==> r[k] in s
    ensures s != [] ==> r != [] && r[0] == (if SpacesThenNewline(s) then '\n' else s[0])
    decreases |s|
  {
    if s == [] then []
    else if SpacesThenNewline(s) then
      var rest := DropSpacesBeforeNewlines(s[RunEnd(s, 0, ' ') + 1..]);
      assert forall k :: 0 <= k < |rest| ==> rest[k] in s;
      ['\n'] + rest
    else
      var rest := DropSpacesBeforeNewlines(s[1..]);
      assert forall k :: 0 <= k < |rest| ==> rest[k] in s;
      [s[0]] + rest
  }

  /** `.replace(/\n{3,}/g, '\n\n')` */
  function CapNewlineRuns(s: string): (r: string)
    ensures forall k :: 0 <= k < |r| ==> r[k] in s
    ensures s != [] ==> r != [] && r[0] == s[0]
    decreases |s|
  {
    if s == [] then []
    else if s[0] == '\n' && RunEnd(s, 0, '\n') >= 3 then
      var rest := CapNewlineRuns(s[RunEnd(s, 0, '\n')..]);
      assert forall k :: 0 <= k < |rest| ==> rest[k] in s;
      "\n\n" + rest
    else
      var rest := CapNewlineRuns(s[1..]);
      assert forall k :: 0 <= k < |rest| ==> rest[k] in s;
      [s[0]] + rest
  }

  lemma NoPairCons(c: char, rest: string, a: char, b: char)
    requires NoPair(rest, a, b)
    requires rest != [] ==> !(c == a && rest[0] == b)
    ensures NoPair([c] + rest, a, b)
  {
    var s := [c] + rest;
    forall i | 0 <= i < |s| - 1
      ensures !(s[i] == a && s[i + 1] == b)
    {
      if i > 0 {
        assert s[i] == rest[i - 1] && s[i + 1] == rest[i];
      }
    }
  }

  lemma NoPairSlice(s: string, i: nat, j: nat, a: char, b: char)
    requires i <= j <= |s| && NoPair(s, a, b)
    ensures NoPair(s[i..j], a, b)
  {
    var t := s[i..j];
    assert forall k :: 0 <= k < |t| ==> t[k] == s[i + k];
  }

  /** After the collapsing step no two spaces stand side by side. */
  lemma {:induction false} CollapseBlanksNoDoubleSpace(s: string)
    ensures NoPair(CollapseBlanks(s), ' ', ' ')
    decreases |s|
  {
    if s != [] {
      if IsBlank(s[0]) {
        var t := s[BlankRunEnd(s, 0)..];
        CollapseBlanksNoDoubleSpace(t);
        NoPairCons(' ', CollapseBlanks(t), ' ', ' ');
      } else {
        CollapseBlanksNoDoubleSpace(s[1..]);
        NoPairCons(s[0], CollapseBlanks(s[1..]), ' ', ' ');
      }
    }
  }

  /** After dropping the spaces that open a line, no space follows a line break,
      and no double space is created. */
  lemma {:induction false} DropSpacesAfterNewlinesShape(s: string)
    ensures NoPair(DropSpacesAfterNewlines(s), '\n', ' ')
    ensures NoPair(s, ' ', ' ') ==> NoPair(DropSpacesAfterNewlines(s), ' ', ' ')
    decreases |s|
  {
    if s != [] {
      var t := if s[0] == '\n' then s[RunEnd(s, 1, ' ')..] else s[1..];
      DropSpacesAfterNewlinesShape(t);
      NoPairCons(s[0], DropSpacesAfterNewlines(t), '\n', ' ');
      if NoPair(s, ' ', ' ') {
        NoPairSlice(s, |s| - |t|, |s|, ' ', ' ');
        assert t == s[|s| - |t|..];
        if s[0] == ' ' {
          assert t == s[1..] && (t != [] ==> t[0] != ' ');
        }
        NoPairCons(s[0], DropSpacesAfterNewlines(t), ' ', ' ');
      }
    }
  }
  /** Where a run of `c` starts one character later, it ends one character later. */
  lemma {:induction false} RunEndShift(s: string, i: nat, c: char)
    requires 1 <= i <= |s|
    ensures RunEnd(s[1..], i - 1, c) + 1 == RunEnd(s, i, c)
    decreases |s| - i
  {
    if i < |s| && s[i] == c {
      RunEndShift(s, i + 1, c);
    }
  }

  /** After dropping the spaces that close a line, no space precedes a line break. */
  lemma {:induction false} DropSpacesBeforeNewlinesNoSpaceBreak(s: string)
    ensures NoPair(DropSpacesBeforeNewlines(s), ' ', '\n')
    decreases |s|
  {
    if s != [] {
      var c := if SpacesThenNewline(s) then '\n' else s[0];
      var t := if SpacesThenNewline(s) then s[RunEnd(s, 0, ' ') + 1..] else s[1..];
      assert DropSpacesBeforeNewlines(s) == [c] + DropSpacesBeforeNewlines(t);
      DropSpacesBeforeNewlinesNoSpaceBreak(t);
      if !SpacesThenNewline(s) && s[0] == ' ' && t != [] {
        RunEndShift(s, 1, ' ');
        assert !SpacesThenNewline(t);
      }
      NoPairCons(c, DropSpacesBeforeNewlines(t), ' ', '\n');
    }
  }

  /** Dropping the spaces that close a line creates no pair ending in a space. */
  lemma {:induction false} DropSpacesBeforeNewlinesKeeps(s: string, a: char)
    requires NoPair(s, a, ' ')
    ensures NoPair(DropSpacesBeforeNewlines(s), a, ' ')
    decreases |s|
  {
    if s != [] {
      var c := if SpacesThenNewline(s) then '\n' else s[0];
      var t := if SpacesThenNewline(s) then s[RunEnd(s, 0, ' ') + 1..] else s[1..];
      assert DropSpacesBeforeNewlines(s) == [c] + DropSpacesBeforeNewlines(t);
      assert t == s[|s| - |t|..];
      NoPairSlice(s, |s| - |t|, |s|, a, ' ');
      DropSpacesBeforeNewlinesKeeps(t, a);
      assert t != [] ==> s[|s| - |t| - 1] == c;
      NoPairCons(c, DropSpacesBeforeNewlines(t), a, ' ');
    }
  }

  lemma NoTripleCons(c: char, rest: string)
    requires NoTripleNewline(rest)
    requires |rest| >= 2 ==> !(c == '\n' && rest[0] == '\n' && rest[1] == '\n')
    ensures NoTripleNewline([c] + rest)
  {
    var s := [c] + rest;
    forall i | 0 <= i < |s| - 2
      ensures !(s[i] == '\n' && s[i + 1] == '\n' && s[i + 2] == '\n')
    {
      if i > 0 {
        assert s[i] == rest[i - 1] && s[i + 1] == rest[i] && s[i + 2] == rest[i + 1];
      }
    }
  }

  lemma NoTripleSlice(s: string, i: nat, j: nat)
    requires i <= j <= |s| && NoTripleNewline(s)
    ensures NoTripleNewline(s[i..j])
  {
    var t := s[i..j];
    assert forall k :: 0 <= k < |t| ==> t[k] == s[i + k];
  }

  /** After capping, no run of three line breaks is left. */
  lemma {:induction false} CapNewlineRunsNoTriple(s: string)
    ensures NoTripleNewline(CapNewlineRuns(s))
    decreases |s|
  {
    if s != [] {
      var e := RunEnd(s, 0, '\n');
      if s[0] == '\n' && e >= 3 {
        var rest := CapNewlineRuns(s[e..]);
        CapNewlineRunsNoTriple(s[e..]);
        NoTripleCons('\n', rest);
        assert CapNewlineRuns(s) == ['\n'] + (['\n'] + rest);
        NoTripleCons('\n', ['\n'] + rest);
      } else {
        var t := s[1..];
        CapNewlineRunsNoTriple(t);
        if s[0] == '\n' && |t| >= 2 && t[0] == '\n' {
          RunEndShift(s, 1, '\n');
          assert CapNewlineRuns(t) == [t[0]] + CapNewlineRuns(t[1..]);
        }
        NoTripleCons(s[0], CapNewlineRuns(t));
      }
    }
  }

  /** A run of three or more line breaks capped to two, followed by the capped
      rest, creates no pair other than two line breaks. */
  lemma CapRunKeeps(s: string, a: char, b: char, e: nat)
    requires NoPair(s, a, b) && !(a == '\n' && b == '\n')
    requires s != [] && s[0] == '\n' && e == RunEnd(s, 0, '\n') && e >= 3
    requires NoPair(CapNewlineRuns(s[e..]), a, b)
    ensures NoPair(CapNewlineRuns(s), a, b)
  {
    var rest := CapNewlineRuns(s[e..]);
    var r := CapNewlineRuns(s);
    assert r == "\n\n" + rest;
    forall i | 0 <= i < |r| - 1
      ensures !(r[i] == a && r[i + 1] == b)
    {
      if i == 1 {
        assert s[e - 1] == '\n' && rest[0] == s[e];
        assert !(s[e - 1] == a && s[e] == b);
      } else if i > 1 {
        assert r[i] == rest[i - 2] && r[i + 1] == rest[i - 1];
      }
    }
  }

  /** Capping creates no pair other than two line breaks. */
  lemma {:induction false} CapNewlineRunsKeeps(s: string, a: char, b: char)
    requires NoPair(s, a, b) && !(a == '\n' && b == '\n')
    ensures NoPair(CapNewlineRuns(s), a, b)
    decreases |s|
  {
    if s != [] {
      var e := RunEnd(s, 0, '\n');
      if s[0] == '\n' && e >= 3 {
        NoPairSlice(s, e, |s|, a, b);
        CapNewlineRunsKeeps(s[e..], a, b);
        CapRunKeeps(s, a, b, e);
      } else {
        NoPairSlice(s, 1, |s|, a, b);
        CapNewlineRunsKeeps(s[1..], a, b);
        NoPairCons(s[0], CapNewlineRuns(s[1..]), a, b);
      }
    }
  }

  /** `s` without the characters `erased` holds, the others kept in order. */
  function Erase(s: string, erased: char -> bool): (r: string)
    ensures |r| <= |s|
    decreases |s|
  {
    if s == [] then [] else (if erased(s[0]) then [] else [s[0]]) + Erase(s[1..], erased)
  }

  /** The space character, the only one three of the steps remove. */
  predicate IsSpace(c: char) {
    c == ' '
  }

  /** The line break, the only character capping removes. */
  predicate IsLineBreak(c: char) {
    c == '\n'
  }

  /** Characters that `erased` holds for, between `i` and `e`, are invisible after erasing. */
  lemma {:induction false} EraseSkip(s: string, i: nat, e: nat, erased: char -> bool)
    requires i <= e <= |s|
    requires forall k :: i <= k < e ==> erased(s[k])
    ensures Erase(s[i..], erased) == Erase(s[e..], erased)
    decreases e - i
  {
    if i < e {
      assert s[i..][1..] == s[i + 1..];
      EraseSkip(s, i + 1, e, erased);
    }
  }

  /** Erasing a text that starts with a kept character keeps that character first. */
  lemma EraseCons(c: char, rest: string, erased: char -> bool)
    ensures Erase([c] + rest, erased) == (if erased(c) then [] else [c]) + Erase(rest, erased)
  {
    assert ([c] + rest)[1..] == rest;
  }

  /** Collapsing changes only spaces and tabs: the other characters of the text
      are all kept, in their order. */
  lemma {:induction false} CollapseBlanksKeepsText(s: string)
    ensures Erase(CollapseBlanks(s), IsBlank) == Erase(s, IsBlank)
    decreases |s|
  {
    if s != [] {
      if IsBlank(s[0]) {
        var e := BlankRunEnd(s, 0);
        CollapseBlanksKeepsText(s[e..]);
        EraseCons(' ', CollapseBlanks(s[e..]), IsBlank);
        EraseSkip(s, 0, e, IsBlank);
        assert s[0..] == s;
      } else {
        CollapseBlanksKeepsText(s[1..]);
        EraseCons(s[0], CollapseBlanks(s[1..]), IsBlank);
      }
    }
  }

  /** Dropping the spaces that open a line removes spaces only: every other
      character is kept, in its order. */
  lemma {:induction false} DropSpacesAfterNewlinesKeepsText(s: string)
    ensures Erase(DropSpacesAfterNewlines(s), IsSpace) == Erase(s, IsSpace)
    decreases |s|
  {
    if s != [] {
      if s[0] == '\n' {
        var e := RunEnd(s, 1, ' ');
        DropSpacesAfterNewlinesKeepsText(s[e..]);
        EraseCons('\n', DropSpacesAfterNewlines(s[e..]), IsSpace);
        EraseSkip(s, 1, e, IsSpace);
      } else {
        DropSpacesAfterNewlinesKeepsText(s[1..]);
        EraseCons(s[0], DropSpacesAfterNewlines(s[1..]), IsSpace);
      }
    }
  }

  /** Dropping the spaces that close a line removes spaces only: every other
      character is kept, in its order. */
  lemma {:induction false} DropSpacesBeforeNewlinesKeepsText(s: string)
    ensures Erase(DropSpacesBeforeNewlines(s), IsSpace) == Erase(s, IsSpace)
    decreases |s|
  {
    if s != [] {
      if SpacesThenNewline(s) {
        var e := RunEnd(s, 0, ' ');
        DropSpacesBeforeNewlinesKeepsText(s[e + 1..]);
        EraseCons('\n', DropSpacesBeforeNewlines(s[e + 1..]), IsSpace);
        EraseSkip(s, 0, e, IsSpace);
        assert s[0..] == s;
        assert s[e..][1..] == s[e + 1..];
      } else {
        DropSpacesBeforeNewlinesKeepsText(s[1..]);
        EraseCons(s[0], DropSpacesBeforeNewlines(s[1..]), IsSpace);
      }
    }
  }

  /** Capping removes line breaks only: every other character is kept, in its order. */
  lemma {:induction false} CapNewlineRunsKeepsText(s: string)
    ensures Erase(CapNewlineRuns(s), IsLineBreak) == Erase(s, IsLineBreak)
    decreases |s|
  {
    if s != [] {
      var e := RunEnd(s, 0, '\n');
      if s[0] == '\n' && e >= 3 {
        CapNewlineRunsKeepsText(s[e..]);
        var rest := CapNewlineRuns(s[e..]);
        EraseCons('\n', rest, IsLineBreak);
        EraseCons('\n', ['\n'] + rest, IsLineBreak);
        assert "\n\n" + rest == ['\n'] + (['\n'] + rest);
        EraseSkip(s, 0, e, IsLineBreak);
        assert s[0..] == s;
      } else {
        CapNewlineRunsKeepsText(s[1..]);
        EraseCons(s[0], CapNewlineRuns(s[1..]), IsLineBreak);
      }
    }
  }

  /** The four white-space steps of `cleanSubtitleText`, in their order. */
  function NormalizeSpacing(s: string): string {
    CapNewlineRuns(DropSpacesBeforeNewlines(DropSpacesAfterNewlines(CollapseBlanks(s))))
  }

  /** `cleanSubtitleText` */
  function CleanSubtitleText(text: string): string {
    if text == "" then ""
    else
      var noTags := StripDelimited(text, '<', '>');
      var noBraces := StripDelimited(noTags, '{', '}');
      var breaks := ReplaceAll(ReplaceAll(noBraces, "\\N", "\n"), "\\n", "\n");
      Trim(NormalizeSpacing(UnescapeEntities(breaks)))
  }

  /** No tab, no double space, no space next to a line break, at most two line breaks in a row. */
  predicate WellSpaced(s: string) {
    && '\t' !in s
    && NoPair(s, ' ', ' ') && NoPair(s, '\n', ' ') && NoPair(s, ' ', '\n')
    && NoTripleNewline(s)
  }

  /** The white-space steps leave any text well spaced. */
  lemma NormalizeSpacingShape(s: string)
    ensures WellSpaced(NormalizeSpacing(s))
  {
    var spaced := CollapseBlanks(s);
    var afterBreaks := DropSpacesAfterNewlines(spaced);
    var beforeBreaks := DropSpacesBeforeNewlines(afterBreaks);
    var capped := CapNewlineRuns(beforeBreaks);
    assert NoPair(afterBreaks, ' ', ' ') && NoPair(afterBreaks, '\n', ' ') by {
      CollapseBlanksNoDoubleSpace(s);
      DropSpacesAfterNewlinesShape(spaced);
    }
    assert NoPair(beforeBreaks, ' ', ' ') && NoPair(beforeBreaks, '\n', ' ')
        && NoPair(beforeBreaks, ' ', '\n') by {
      DropSpacesBeforeNewlinesNoSpaceBreak(afterBreaks);
      DropSpacesBeforeNewlinesKeeps(afterBreaks, ' ');
      DropSpacesBeforeNewlinesKeeps(afterBreaks, '\n');
    }
    assert NoPair(capped, ' ', ' ') && NoPair(capped, '\n', ' ')
        && NoPair(capped, ' ', '\n') && NoTripleNewline(capped) by {
      CapNewlineRunsNoTriple(beforeBreaks);
      CapNewlineRunsKeeps(beforeBreaks, ' ', ' ');
      CapNewlineRunsKeeps(beforeBreaks, '\n', ' ');
      CapNewlineRunsKeeps(beforeBreaks, ' ', '\n');
    }
    assert '\t' !in capped by {
      assert '\t' !in afterBreaks;
      assert '\t' !in beforeBreaks;
    }
  }

  /** Trimming keeps a text well spaced. */
  lemma TrimKeepsWellSpaced(s: string)
    requires WellSpaced(s)
    ensures WellSpaced(Trim(s))
  {
    var r := Trim(s);
    var i := TrimIsSlice(s);
    NoPairSlice(s, i, i + |r|, ' ', ' ');
    NoPairSlice(s, i, i + |r|, '\n', ' ');
    NoPairSlice(s, i, i + |r|, ' ', '\n');
    NoTripleSlice(s, i, i + |r|);
    assert forall k :: 0 <= k < |r| ==> r[k] == s[i + k];
  }

  /** What `cleanSubtitleText` promises about its output: well spaced, no white
      space at either end, and the empty text stays empty. */
  lemma CleanSubtitleTextShape(text: string)
    ensures WellSpaced(CleanSubtitleText(text))
    ensures var r := CleanSubtitleText(text);
      r == [] || (!IsWhitespace(r[0]) && !IsWhitespace(r[|r| - 1]))
    ensures text == "" ==> CleanSubtitleText(text) == ""
  {
    if text != "" {
      var noTags := StripDelimited(text, '<', '>');
      var noBraces := StripDelimited(noTags, '{', '}');
      var breaks := ReplaceAll(ReplaceAll(noBraces, "\\N", "\n"), "\\n", "\n");
      NormalizeSpacingShape(UnescapeEntities(breaks));
      TrimKeepsWellSpaced(NormalizeSpacing(UnescapeEntities(breaks)));
    }
  }

  /** A replacement whose pattern matches at the start consumes it. */
  lemma ReplaceAllLeadingMatch(pat: string, rest: string, rep: string)
    requires |pat| > 0
    ensures ReplaceAll(pat + rest, pat, rep) == rep + ReplaceAll(rest, pat, rep)
  {
    assert (pat + rest)[..|pat|] == pat;
    assert (pat + rest)[|pat|..] == rest;
  }

  /** A replacement whose pattern does not match at the start (position `j` differs,
      or lies past the end) keeps the first character. */
  lemma ReplaceAllSkipsFirst(c: char, rest: string, pat: string, rep: string, j: nat)
    requires j < |pat|
    requires j > |rest| || ([c] + rest)[j] != pat[j]
    ensures ReplaceAll([c] + rest, pat, rep) == [c] + ReplaceAll(rest, pat, rep)
  {
    var s := [c] + rest;
    assert s[1..] == rest;
    if |pat| <= |s| {
      assert s[..|pat|][j] == s[j];
    }
  }

  /** A replacement changes nothing in a text that lacks the pattern's first character. */
  lemma {:induction false} ReplaceAllWithoutFirstChar(s: string, pat: string, rep: string)
    requires |pat| > 0 && pat[0] !in s
    ensures ReplaceAll(s, pat, rep) == s
    decreases |s|
  {
    if s != [] {
      assert s[0] != pat[0];
      ReplaceAllWithoutFirstChar(s[1..], pat, rep);
      assert s == [s[0]] + s[1..];
    }
  }

  /** A replacement passes over a prefix that lacks the pattern's first character. */
  lemma {:induction false} ReplaceAllPlainPrefix(a: string, b: string, pat: string, rep: string)
    requires |pat| > 0 && pat[0] !in a
    ensures ReplaceAll(a + b, pat, rep) == a + ReplaceAll(b, pat, rep)
    decreases |a|
  {
    if a != [] {
      calc {
        ReplaceAll(a + b, pat, rep);
        { assert a + b == [a[0]] + (a[1..] + b); }
        ReplaceAll([a[0]] + (a[1..] + b), pat, rep);
        { ReplaceAllSkipsFirst(a[0], a[1..] + b, pat, rep, 0); }
        [a[0]] + ReplaceAll(a[1..] + b, pat, rep);
        { ReplaceAllPlainPrefix(a[1..], b, pat, rep); }
        [a[0]] + (a[1..] + ReplaceAll(b, pat, rep));
        { assert a == [a[0]] + a[1..]; }
        a + ReplaceAll(b, pat, rep);
      }
    } else {
      assert a + b == b;
    }
  }

  /** A text shorter than the pattern is left as it is. */
  lemma {:induction false} ReplaceAllShort(s: string, pat: string, rep: string)
    requires 0 < |pat| && |s| < |pat|
    ensures ReplaceAll(s, pat, rep) == s
    decreases |s|
  {
    if s != [] {
      ReplaceAllShort(s[1..], pat, rep);
      assert s == [s[0]] + s[1..];
    }
  }

  /** The white-space steps change nothing in a text with no white space. */
  lemma {:induction false} NormalizeSpacingPlain(s: string)
    requires forall k :: 0 <= k < |s| ==> !IsWhitespace(s[k])
    ensures CollapseBlanks(s) == s
    ensures DropSpacesAfterNewlines(s) == s
    ensures DropSpacesBeforeNewlines(s) == s
    ensures CapNewlineRuns(s) == s
    ensures NormalizeSpacing(s) == s
    decreases |s|
  {
    if s != [] {
      NormalizeSpacingPlain(s[1..]);
      assert s == [s[0]] + s[1..];
    }
  }

  /** On a text without `<`, `{` and `\` whose unescaped form has no white space,
      cleaning only unescapes entities. */
  lemma CleanSubtitleTextUnescapesOnly(text: string, unescaped: string)
    requires text != "" && '<' !in text && '{' !in text && '\\' !in text
    requires UnescapeEntities(text) == unescaped
    requires forall k :: 0 <= k < |unescaped| ==> !IsWhitespace(unescaped[k])
    ensures CleanSubtitleText(text) == unescaped
  {
    ReplaceAllWithoutFirstChar(text, "\\N", "\n");
    ReplaceAllWithoutFirstChar(text, "\\n", "\n");
    NormalizeSpacingPlain(unescaped);
    TrimUnchanged(unescaped);
  }

  lemma DoubleEscapedAmpStep(text: string)
    requires text == "&amp;lt;"
    ensures ReplaceAll(text, "&amp;", "&") == "&lt;"
  {
    var tail := "lt;";
    assert text == "&amp;" + tail;
    ReplaceAllLeadingMatch("&amp;", tail, "&");
    ReplaceAllWithoutFirstChar(tail, "&amp;", "&");
  }

  lemma DoubleEscapedLtStep(s: string)
    requires s == "&lt;"
    ensures ReplaceAll(s, "&lt;", "<") == "<"
  {
    assert s == "&lt;" + "";
    ReplaceAllLeadingMatch("&lt;", "", "<");
  }

  lemma DoubleEscapedUnescaped(text: string)
    requires text == "&amp;lt;"
    ensures UnescapeEntities(text) == "<"
  {
    var lt := "<";
    DoubleEscapedAmpStep(text);
    DoubleEscapedLtStep("&lt;");
    ReplaceAllWithoutFirstChar(lt, "&gt;", ">");
    ReplaceAllWithoutFirstChar(lt, "&quot;", "\"");
    ReplaceAllWithoutFirstChar(lt, "&#39;", "'");
  }

  /** `&amp;` is unescaped first, so `&amp;lt;` becomes `<`. */
  lemma AmpersandUnescapedFirst(text: string)
    requires text == "&amp;lt;"
    ensures CleanSubtitleText(text) == "<"
  {
    DoubleEscapedUnescaped(text);
    CleanSubtitleTextUnescapesOnly(text, "<");
  }

  lemma EscapedTagAmpStep(text: string)
    requires text == "&lt;b&gt;"
    ensures ReplaceAll(text, "&amp;", "&") == text
  {
    var gt := "&gt;";
    assert text == ['&'] + ("lt;b" + gt);
    ReplaceAllSkipsFirst('&', "lt;b" + gt, "&amp;", "&", 1);
    ReplaceAllPlainPrefix("lt;b", gt, "&amp;", "&");
    ReplaceAllShort(gt, "&amp;", "&");
  }

  lemma EscapedTagLtStep(text: string)
    requires text == "&lt;b&gt;"
    ensures ReplaceAll(text, "&lt;", "<") == "<b&gt;"
  {
    var rest := "b&gt;";
    assert text == "&lt;" + rest;
    ReplaceAllLeadingMatch("&lt;", rest, "<");
    EscapedTagLtRest(rest);
  }

  lemma EscapedTagLtRest(rest: string)
    requires rest == "b&gt;"
    ensures ReplaceAll(rest, "&lt;", "<") == rest
  {
    var gt := "&gt;";
    assert rest == "b" + gt;
    ReplaceAllPlainPrefix("b", gt, "&lt;", "<");
    assert gt == ['&'] + "gt;";
    ReplaceAllSkipsFirst('&', "gt;", "&lt;", "<", 1);
    ReplaceAllWithoutFirstChar("gt;", "&lt;", "<");
  }

  lemma EscapedTagGtStep(s: string)
    requires s == "<b&gt;"
    ensures ReplaceAll(s, "&gt;", ">") == "<b>"
  {
    var gt := "&gt;";
    assert s == "<b" + gt;
    ReplaceAllPlainPrefix("<b", gt, "&gt;", ">");
    assert gt == "&gt;" + "";
    ReplaceAllLeadingMatch("&gt;", "", ">");
  }

  lemma EscapedTagUnescaped(text: string)
    requires text == "&lt;b&gt;"
    ensures UnescapeEntities(text) == "<b>"
  {
    var unescaped := "<b>";
    EscapedTagAmpStep(text);
    EscapedTagLtStep(text);
    EscapedTagGtStep("<b&gt;");
    ReplaceAllWithoutFirstChar(unescaped, "&quot;", "\"");
    ReplaceAllWithoutFirstChar(unescaped, "&#39;", "'");
  }

  /** Tags are stripped before entities are unescaped, so `&lt;b&gt;` survives as `<b>`. */
  lemma EscapedTagSurvives(text: string)
    requires text == "&lt;b&gt;"
    ensures CleanSubtitleText(text) == "<b>"
  {
    EscapedTagUnescaped(text);
    CleanSubtitleTextUnescapesOnly(text, "<b>");
  }

  /** A text that is a single tag cleans to the empty text. */
  lemma TagOnlyTextCleansToEmpty(text: string)
    requires text == "<i>"
    ensures CleanSubtitleText(text) == ""
  {
    assert text[0] == '<' && '>' in text[1..];
    assert StripDelimited(text, '<', '>') == "" by {
      assert text[1..][IndexOf(text[1..], '>') + 1..] == "";
    }
    assert ReplaceAll("", "\\N", "\n") == "";
  }

  // ---------------------------------------------------------------------------
  // The pipeline of `handleSubtitleChange`

  /** What loading a subtitle file leads to: the records handed to the player, or
      the "No subtitles found in file" error (the player's list is then left alone). */
  datatype LoadOutcome = Loaded(subtitles: seq<Subtitle>) | NoSubtitlesFound

  /** `parsed.map((item, index) => ({ start, end, text: cleanSubtitleText(item.text), index }))` */
  function ToSubtitles(cues: seq<Cue>): (subs: seq<Subtitle>)
    ensures |subs| == |cues|
  {
    seq(|cues|, i requires 0 <= i < |cues| =>
      Subtitle(cues[i].start, cues[i].end, CleanSubtitleText(cues[i].text), Some(i), false, None))
  }

  /** The blocks of a file's text once its line endings are normalised. */
  function FileBlocks(fileText: string): seq<string> {
    SplitBlocks(NormalizeLineEndings(fileText))
  }

  /** Normalise, parse, refuse an empty result, number the records. */
  function LoadSubtitleText(fileText: string): LoadOutcome {
    var parsed := ParseBlocks(FileBlocks(fileText));
    if parsed == [] then NoSubtitlesFound else Loaded(ToSubtitles(parsed))
  }

  /** `handleSubtitleChange` once the file's text is read. */
  method HandleSubtitleText(fileText: string) returns (outcome: LoadOutcome)
    ensures outcome == LoadSubtitleText(fileText)
  {
    var cleanText := NormalizeLineEndings(fileText);
    var parsed := ManualSrtParse(cleanText);
    if parsed == [] {
      return NoSubtitlesFound;
    }
    outcome := Loaded(ToSubtitles(parsed));
  }

  /** A file loads exactly when at least one of its blocks is accepted. */
  lemma LoadFailsIffNoBlockAccepted(fileText: string)
    ensures LoadSubtitleText(fileText) == NoSubtitlesFound <==>
      forall j :: 0 <= j < |FileBlocks(fileText)| ==> ParseBlock(FileBlocks(fileText)[j]).None?
  {
    ParseBlocksEmptyIff(FileBlocks(fileText));
  }

  /** No cue is parsed exactly when every block is skipped. */
  lemma ParseBlocksEmptyIff(blocks: seq<string>)
    ensures ParseBlocks(blocks) == [] <==> forall j :: 0 <= j < |blocks| ==> ParseBlock(blocks[j]).None?
  {
    if ParseBlocks(blocks) == [] {
      forall j | 0 <= j < |blocks|
        ensures ParseBlock(blocks[j]).None?
      {
        if ParseBlock(blocks[j]).Some? {
          CollectPresent(blocks, ParseBlock, j);
        }
      }
    } else {
      CollectFrom(blocks, ParseBlock, 0);
    }
  }

  /** The loaded records follow the accepted blocks in order, each numbered by its
      position, unselected, with no typed text, with the block's times (within
      0..MaxStamp) and with the block's text cleaned, which may leave it empty:
      cleaning happens after the emptiness test. */
  lemma LoadedRecord(fileText: string, i: nat)
    requires LoadSubtitleText(fileText).Loaded?
    requires i < |LoadSubtitleText(fileText).subtitles|
    ensures var cues := ParseBlocks(FileBlocks(fileText));
      var s := LoadSubtitleText(fileText).subtitles[i];
      && |LoadSubtitleText(fileText).subtitles| == |cues|
      && s.index == Some(i)
      && s.start == cues[i].start <= MaxStamp
      && s.end == cues[i].end <= MaxStamp
      && s.text == CleanSubtitleText(cues[i].text)
      && !s.selected && s.typedText == None
  {
    ParseBlocksBounds(FileBlocks(fileText), i);
  }
}
