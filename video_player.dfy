/** The caption logic of src/components/VideoPlayer.tsx: which caption is
    displayed at a given time, how a keystroke is judged in typing mode, and how
    each line of the displayed caption is rendered. `extractLettersOnly` and
    `revealTypedCharacters` are not part of this model: they are parameters
    (`extract`, `revealTyped`), so every property below holds whatever they do. */
module VideoPlayer {
  import opened JsString
  import opened JsArray
  import opened Types
  import opened TextUtils

  // ---------------------------------------------------------------------------
  // Caption resolution

  /** The displayed caption: `subtitleIndex` (-1 for none) and `displaySubtitle`. */
  datatype Display = Display(index: int, subtitle: Option<Subtitle>)

  /** `subtitles.findIndex(sub => t >= sub.start && t <= sub.end)` */
  function FindActive(subs: seq<Subtitle>, t: int): (i: int)
    ensures -1 <= i < |subs|
    ensures i >= 0 ==> Contains(subs[i], t)
    ensures forall j :: 0 <= j < |subs| && (i == -1 || j < i) ==> !Contains(subs[j], t)
  {
    FindIndex(subs, (s: Subtitle) => Contains(s, t))
  }

  /** `subtitles.find(sub => t < sub.start)`, as an index (-1 when none). */
  function FindUpcoming(subs: seq<Subtitle>, t: int): (i: int)
    ensures -1 <= i < |subs|
    ensures i >= 0 ==> t < subs[i].start
    ensures forall j :: 0 <= j < |subs| && (i == -1 || j < i) ==> subs[j].start <= t
  {
    FindIndex(subs, (s: Subtitle) => t < s.start)
  }

  /** The head of the captions that ended before `t`, stably sorted by decreasing
      end (`.filter(({sub}) => t > sub.end).sort((a, b) => b.sub.end - a.sub.end)[0]`):
      the ended caption with the greatest end, the lowest index among equals, or
      -1 when none has ended. */
  function LastEnded(subs: seq<Subtitle>, t: int): (i: int)
    ensures -1 <= i < |subs|
    ensures i == -1 <==> forall j :: 0 <= j < |subs| ==> subs[j].end >= t
    ensures i >= 0 ==> subs[i].end < t
    ensures i >= 0 ==> forall j :: 0 <= j < |subs| && subs[j].end < t ==>
      subs[j].end <= subs[i].end && (subs[j].end == subs[i].end ==> i <= j)
  {
    if subs == [] then -1
    else
      var k := LastEnded(subs[..|subs| - 1], t);
      var last := |subs| - 1;
      assert forall j :: 0 <= j < last ==> subs[..last][j] == subs[j];
      if subs[last].end < t && (k == -1 || subs[last].end > subs[k].end) then last else k
  }

  /** The resolution effect: with auto-pause off, the first caption whose closed
      interval holds `t`; with it on, that caption too if there is one, else the
      last ended caption, provided no caption is about to start (a check that
      never fails, see `UpcomingCheckNeverRejects`). */
  function Resolve(subs: seq<Subtitle>, t: int, autoPause: bool): (d: Display)
    ensures -1 <= d.index < |subs|
  {
    var found := FindActive(subs, t);
    if found != -1 then Display(found, Some(subs[found]))
    else if !autoPause then Display(-1, None)
    else
      var last := LastEnded(subs, t);
      if last == -1 then Display(-1, None)
      else
        var next := FindUpcoming(subs, t);
        if next == -1 || t < subs[next].start then Display(last, Some(subs[last]))
        else Display(-1, None)
  }

  /** `find(sub => t < sub.start)` only returns a caption that starts after `t`,
      so the test `!nextSubtitle || t < nextSubtitle.start` always passes. */
  lemma UpcomingCheckNeverRejects(subs: seq<Subtitle>, t: int)
    ensures var next := FindUpcoming(subs, t);
      next == -1 || (0 <= next < |subs| && t < subs[next].start)
  {
  }

  /** Whenever an index is displayed, the displayed caption is the caption at that
      index; with no index, nothing is displayed. */
  lemma ResolveConsistent(subs: seq<Subtitle>, t: int, autoPause: bool)
    ensures var d := Resolve(subs, t, autoPause);
      && (d.index == -1 <==> d.subtitle == None)
      && (d.index != -1 ==> d.subtitle == Some(subs[d.index]))
  {
  }

  /** With auto-pause off the displayed index is the first caption containing
      `t`, or -1 when none does. */
  lemma ResolveStrict(subs: seq<Subtitle>, t: int)
    ensures var d := Resolve(subs, t, false);
      && (d.index == -1 <==> forall j :: 0 <= j < |subs| ==> !Contains(subs[j], t))
      && (d.index >= 0 ==> Contains(subs[d.index], t))
      && (forall j :: 0 <= j < d.index ==> !Contains(subs[j], t))
  {
  }

  /** With auto-pause on and a caption containing `t`, the result is the strict one. */
  lemma ResolveAutoPauseStrictMatch(subs: seq<Subtitle>, t: int, i: nat)
    requires i < |subs| && Contains(subs[i], t)
    ensures Resolve(subs, t, true) == Resolve(subs, t, false)
  {
  }

  /** With auto-pause on, no caption containing `t` and some caption ended, the
      ended caption with the greatest end is displayed, the lowest index among
      equals. */
  lemma ResolveAutoPauseFallback(subs: seq<Subtitle>, t: int, e: nat)
    requires forall j :: 0 <= j < |subs| ==> !Contains(subs[j], t)
    requires e < |subs| && subs[e].end < t
    ensures var d := Resolve(subs, t, true);
      && d.index >= 0 && subs[d.index].end < t
      && forall j :: 0 <= j < |subs| && subs[j].end < t ==>
           subs[j].end <= subs[d.index].end && (subs[j].end == subs[d.index].end ==> d.index <= j)
  {
    UpcomingCheckNeverRejects(subs, t);
  }

  /** When no caption contains `t` and none has ended, nothing is displayed,
      whatever the auto-pause setting. */
  lemma ResolveNothing(subs: seq<Subtitle>, t: int, autoPause: bool)
    requires forall j :: 0 <= j < |subs| ==> !Contains(subs[j], t) && subs[j].end >= t
    ensures Resolve(subs, t, autoPause) == Display(-1, None)
  {
  }

  /** Captions at 0..1000 ms and 1500..2000 ms with auto-pause on: in the gap at
      1200 ms the first stays displayed, at 1600 ms the second is displayed. */
  lemma GapDisplayExample(a: Subtitle, b: Subtitle)
    requires a.start == 0 && a.end == 1000 && b.start == 1500 && b.end == 2000
    ensures Resolve([a, b], 1200, true) == Display(0, Some(a))
    ensures Resolve([a, b], 1600, true) == Display(1, Some(b))
  {
    assert !Contains(a, 1200) && !Contains(b, 1200);
    assert LastEnded([a, b], 1200) == 0;
    assert FindUpcoming([a, b], 1200) == 1;
    assert FindActive([a, b], 1600) == 1;
  }

  // ---------------------------------------------------------------------------
  // Keystrokes in typing mode

  /** `/^[a-zA-Z0-9]$/.test(key)` */
  predicate IsTypingKey(key: string) {
    |key| == 1 && IsAsciiAlnum(key[0])
  }

  /** The call `onTextTyped(index, typedText)` the handler makes. */
  datatype Typed = Typed(index: int, typedText: string)

  /** The key handler: a key counts only in typing mode, with a caption displayed,
      when it is a single letter or digit; it is accepted when, lower-cased, it is
      the next character of the caption's letters. */
  function JudgeKey(typingEnabled: bool, index: int, subs: seq<Subtitle>, key: string,
                    extract: string -> string): Option<Typed>
  {
    if !typingEnabled || index == -1 then None
    else if !IsTypingKey(key) then None
    else if !(0 <= index < |subs|) then None
    else
      var typed := TypedOrEmpty(subs[index]);
      var target := extract(subs[index].text);
      var lower := ToLowerAscii(key[0]);
      if |typed| < |target| && lower == target[|typed|] then Some(Typed(index, typed + [lower]))
      else None
  }

  /** A key is ignored unless typing mode is on, a caption is displayed and the key
      is a single letter or digit. */
  lemma JudgeKeyGuards(typingEnabled: bool, index: int, subs: seq<Subtitle>, key: string,
                       extract: string -> string)
    requires JudgeKey(typingEnabled, index, subs, key, extract).Some?
    ensures typingEnabled && index != -1 && 0 <= index < |subs| && IsTypingKey(key)
  {
  }

  /** With the guards passed, a key is accepted exactly when the typed text is
      shorter than the target and the lower-cased key is the target's next
      character; the typed text then grows by that character for that caption.
      An absent typed text counts as empty. */
  lemma JudgeKeyAccepts(index: nat, subs: seq<Subtitle>, key: string, extract: string -> string)
    requires index < |subs| && IsTypingKey(key)
    ensures var typed := TypedOrEmpty(subs[index]);
      var target := extract(subs[index].text);
      var lower := ToLowerAscii(key[0]);
      && (JudgeKey(true, index, subs, key, extract).Some? <==>
            |typed| < |target| && lower == target[|typed|])
      && (JudgeKey(true, index, subs, key, extract).Some? ==>
            JudgeKey(true, index, subs, key, extract) == Some(Typed(index, typed + [lower])))
  {
  }

  /** A typed text that is a prefix of the target stays a prefix, and never
      outgrows the target, whatever key is pressed. */
  lemma JudgeKeyKeepsPrefix(typingEnabled: bool, index: int, subs: seq<Subtitle>, key: string,
                            extract: string -> string)
    requires 0 <= index < |subs|
    requires var typed := TypedOrEmpty(subs[index]);
      typed <= extract(subs[index].text)
    ensures var r := JudgeKey(typingEnabled, index, subs, key, extract);
      r.Some? ==>
        && r.value.typedText <= extract(subs[index].text)
        && |r.value.typedText| == |TypedOrEmpty(subs[index])| + 1
  {
  }

  // ---------------------------------------------------------------------------
  // Rendering the displayed caption

  /** One line of the displayed caption: the typing reveal first, else the hidden
      letters, else the line itself. */
  function RenderLine(line: string, sub: Subtitle, index: int, typingEnabled: bool, hideLetters: bool,
                      revealTyped: (string, string, string) -> string): string
  {
    if typingEnabled && index != -1 then revealTyped(line, TypedOrEmpty(sub), sub.text)
    else if hideLetters then ConvertLettersToUnderscores(line)
    else line
  }

  /** `currentSubtitle.text.split('\n').map(…)`: one rendered line per line of the caption. */
  function RenderLines(sub: Subtitle, index: int, typingEnabled: bool, hideLetters: bool,
                       revealTyped: (string, string, string) -> string): (r: seq<string>)
    ensures |r| == |SplitOn(sub.text, '\n')|
  {
    var lines := SplitOn(sub.text, '\n');
    seq(|lines|, k requires 0 <= k < |lines| =>
      RenderLine(lines[k], sub, index, typingEnabled, hideLetters, revealTyped))
  }

  /** In typing mode with a caption displayed, the hide-letters setting has no effect. */
  lemma TypingRevealTakesPriority(sub: Subtitle, index: int, revealTyped: (string, string, string) -> string)
    requires index != -1
    ensures RenderLines(sub, index, true, true, revealTyped) == RenderLines(sub, index, true, false, revealTyped)
  {
  }

  /** With neither mode active the caption is shown as it is: its lines join back
      to its text. */
  lemma PlainRenderShowsText(sub: Subtitle, index: int, typingEnabled: bool,
                             revealTyped: (string, string, string) -> string)
    requires !typingEnabled || index == -1
    ensures Join(RenderLines(sub, index, typingEnabled, false, revealTyped), '\n') == sub.text
  {
    JoinSplit(sub.text, '\n');
    assert RenderLines(sub, index, typingEnabled, false, revealTyped) == SplitOn(sub.text, '\n');
  }

  /** Hiding letters line by line hides the same letters as hiding the whole text:
      a line break is not a word character. */
  lemma {:induction false} HideLinesJoin(lines: seq<string>)
    requires |lines| >= 1
    ensures Join(seq(|lines|, k requires 0 <= k < |lines| => ConvertLettersToUnderscores(lines[k])), '\n')
         == ConvertLettersToUnderscores(Join(lines, '\n'))
  {
    var hidden := seq(|lines|, k requires 0 <= k < |lines| => ConvertLettersToUnderscores(lines[k]));
    if |lines| > 1 {
      var rest := lines[1..];
      HideLinesJoin(rest);
      var hiddenRest := seq(|rest|, k requires 0 <= k < |rest| => ConvertLettersToUnderscores(rest[k]));
      assert hidden[1..] == hiddenRest;
      var head := lines[0] + ['\n'];
      ConvertAppendAtBreak(head, Join(rest, '\n'));
      assert Join(lines, '\n') == head + Join(rest, '\n');
      ConvertLineThenBreak(lines[0]);
    }
  }

  /** A line break after a line leaves the line's transform as it is. */
  lemma ConvertLineThenBreak(line: string)
    ensures ConvertLettersToUnderscores(line + ['\n']) == ConvertLettersToUnderscores(line) + ['\n']
  {
    var s := line + ['\n'];
    ConvertPointwise(s);
    ConvertPointwise(line);
    forall k | 0 <= k < |s|
      ensures ConvertLettersToUnderscores(s)[k] == (ConvertLettersToUnderscores(line) + ['\n'])[k]
    {
      if k < |line| {
        assert HiddenAt(s, k) == HiddenAt(line, k);
      }
    }
  }

  /** With hide-letters on and typing mode off, the rendered lines join to the
      hidden form of the whole caption. */
  lemma HiddenRenderHidesText(sub: Subtitle, index: int, typingEnabled: bool,
                              revealTyped: (string, string, string) -> string)
    requires !typingEnabled || index == -1
    ensures Join(RenderLines(sub, index, typingEnabled, true, revealTyped), '\n')
         == ConvertLettersToUnderscores(sub.text)
  {
    var lines := SplitOn(sub.text, '\n');
    HideLinesJoin(lines);
    JoinSplit(sub.text, '\n');
    assert RenderLines(sub, index, typingEnabled, true, revealTyped)
        == seq(|lines|, k requires 0 <= k < |lines| => ConvertLettersToUnderscores(lines[k]));
  }
}
