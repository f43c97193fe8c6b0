/** The session state of src/App.tsx: the caption list and its per-record
    updates, the auto-pause decision taken on every time update, and the
    handlers that seek, toggle modes and pick captions for export. Times are
    integer milliseconds; pausing, playing and seeking the video are returned
    as signals. */
module App {
  import opened JsArray
  import opened Types
  import opened FileUploader
  import opened VideoPlayer

  /** The auto-pause fires this many milliseconds before a caption's end. */
  const EndTolerance: int := 100

  /** A caption counts as just passed for this many milliseconds after its end. */
  const JustPassedWindow: int := 200

  /** `timeInMs > subtitle.end && timeInMs <= subtitle.end + 200` */
  predicate JustPassed(s: Subtitle, t: int) {
    s.end < t <= s.end + JustPassedWindow
  }

  /** The caption the auto-pause stops at on a tick at `t`, given the caption
      it last stopped at (`None` for null), or `None` when it does not stop. */
  function PauseTarget(subs: seq<Subtitle>, t: int, lastPaused: Option<int>): (p: Option<nat>)
    ensures p.Some? ==> p.value < |subs| && lastPaused != Some(p.value as int)
  {
    var active := FindActive(subs, t);
    if active != -1 then
      if t >= subs[active].end - EndTolerance && lastPaused != Some(active) then Some(active)
      else None
    else if lastPaused != Some(-1) then
      var passed := FindIndex(subs, (s: Subtitle) => JustPassed(s, t));
      if passed != -1 && lastPaused != Some(passed) then Some(passed) else None
    else None
  }

  /** The pause-tracking value is null or a caption index, never negative. */
  predicate ValidLastPaused(lastPaused: Option<int>) {
    lastPaused.None? || lastPaused.value >= 0
  }

  /** Inside a caption the auto-pause stops at the first caption holding `t`,
      exactly when `t` is within the tolerance of its end and it is not the
      caption last stopped at. */
  lemma PauseInsideCaption(subs: seq<Subtitle>, t: int, lastPaused: Option<int>, a: nat)
    requires a < |subs| && Contains(subs[a], t)
    requires forall j :: 0 <= j < a ==> !Contains(subs[j], t)
    ensures PauseTarget(subs, t, lastPaused).Some? <==>
      t >= subs[a].end - EndTolerance && lastPaused != Some(a as int)
    ensures PauseTarget(subs, t, lastPaused).Some? ==> PauseTarget(subs, t, lastPaused) == Some(a)
  {
    assert FindActive(subs, t) == a;
  }

  /** Between captions the auto-pause stops at the first caption that ended
      within the window, unless it is the caption last stopped at; the test
      against -1 never decides anything, since the tracking value is never -1. */
  lemma PauseBetweenCaptions(subs: seq<Subtitle>, t: int, lastPaused: Option<int>, j: nat)
    requires ValidLastPaused(lastPaused)
    requires forall k :: 0 <= k < |subs| ==> !Contains(subs[k], t)
    requires j < |subs| && JustPassed(subs[j], t)
    requires forall k :: 0 <= k < j ==> !JustPassed(subs[k], t)
    ensures PauseTarget(subs, t, lastPaused) == if lastPaused == Some(j as int) then None else Some(j)
  {
    assert FindIndex(subs, (s: Subtitle) => JustPassed(s, t)) == j;
  }

  /** Between captions, with none just passed, the auto-pause does not stop. */
  lemma NoPauseAwayFromCaptions(subs: seq<Subtitle>, t: int, lastPaused: Option<int>)
    requires forall k :: 0 <= k < |subs| ==> !Contains(subs[k], t) && !JustPassed(subs[k], t)
    ensures PauseTarget(subs, t, lastPaused) == None
  {
  }

  /** Re-evaluating a tick after its pause has been recorded stops no second time. */
  lemma PauseIdempotent(subs: seq<Subtitle>, t: int, lastPaused: Option<int>)
    requires PauseTarget(subs, t, lastPaused).Some?
    ensures PauseTarget(subs, t, Some(PauseTarget(subs, t, lastPaused).value as int)) == None
  {
  }

  /** Two ticks: once the auto-pause has stopped near the end of a caption at
      `t1`, a later tick `t2` in the gap after it, at which that caption is the
      first one just passed, does not stop a second time. */
  lemma EndPauseSuppressesJustPassed(subs: seq<Subtitle>, t1: int, t2: int, lastPaused: Option<int>, i: nat)
    requires PauseTarget(subs, t1, lastPaused) == Some(i)
    requires forall k :: 0 <= k < |subs| ==> !Contains(subs[k], t2)
    requires JustPassed(subs[i], t2)
    requires forall k :: 0 <= k < i ==> !JustPassed(subs[k], t2)
    ensures PauseTarget(subs, t2, Some(PauseTarget(subs, t1, lastPaused).value as int)) == None
  {
    PauseBetweenCaptions(subs, t2, Some(i as int), i);
  }

  /** `handleTextTyped`: the typed text of the caption at `i` becomes `typed`. */
  function WithTyped(subs: seq<Subtitle>, i: int, typed: string): (r: seq<Subtitle>)
    ensures |r| == |subs|
    ensures forall k :: 0 <= k < |subs| && k != i ==> r[k] == subs[k]
    ensures 0 <= i < |subs| ==> r[i] == subs[i].(typedText := Some(typed))
  {
    if 0 <= i < |subs| then subs[i := subs[i].(typedText := Some(typed))] else subs
  }

  /** `handleSubtitleSelectionChange`: the selection flag of the caption at `i` becomes `selected`. */
  function WithSelected(subs: seq<Subtitle>, i: int, selected: bool): (r: seq<Subtitle>)
    ensures |r| == |subs|
    ensures forall k :: 0 <= k < |subs| && k != i ==> r[k] == subs[k]
    ensures 0 <= i < |subs| ==> r[i] == subs[i].(selected := selected)
  {
    if 0 <= i < |subs| then subs[i := subs[i].(selected := selected)] else subs
  }

  /** `handleSelectAll` and `handleClearSelection`: every selection flag becomes `selected`. */
  function SetAllSelected(subs: seq<Subtitle>, selected: bool): (r: seq<Subtitle>)
    ensures |r| == |subs|
    ensures forall k :: 0 <= k < |subs| ==> r[k] == subs[k].(selected := selected)
  {
    seq(|subs|, k requires 0 <= k < |subs| => subs[k].(selected := selected))
  }

  /** Enabling typing mode: every typed text becomes the empty string. */
  function ClearTyped(subs: seq<Subtitle>): (r: seq<Subtitle>)
    ensures |r| == |subs|
    ensures forall k :: 0 <= k < |subs| ==> r[k] == subs[k].(typedText := Some(""))
  {
    seq(|subs|, k requires 0 <= k < |subs| => subs[k].(typedText := Some("")))
  }

  /** `subtitles.filter((subtitle) => subtitle.selected)` */
  function Selected(subs: seq<Subtitle>): (r: seq<Subtitle>)
    ensures |r| <= |subs|
    ensures forall x :: x in r <==> x in subs && x.selected
  {
    Filter(subs, (s: Subtitle) => s.selected)
  }

  /** After select-all the selection is the whole list, in order. */
  lemma SelectAllSelectsEverything(subs: seq<Subtitle>)
    ensures Selected(SetAllSelected(subs, true)) == SetAllSelected(subs, true)
  {
    var all := SetAllSelected(subs, true);
    FilterKeepsAll(all, (s: Subtitle) => s.selected);
  }

  /** After clearing the selection nothing is selected. */
  lemma ClearSelectionSelectsNothing(subs: seq<Subtitle>)
    ensures Selected(SetAllSelected(subs, false)) == []
  {
    FilterKeepsNone(SetAllSelected(subs, false), (s: Subtitle) => s.selected);
  }

  /** The selection keeps the list's order: selecting from two runs one after the
      other selects from each and keeps them one after the other. */
  lemma SelectedKeepsOrder(xs: seq<Subtitle>, ys: seq<Subtitle>)
    ensures Selected(xs + ys) == Selected(xs) + Selected(ys)
  {
    FilterAppend(xs, ys, (s: Subtitle) => s.selected);
  }

  /** After typing mode is enabled every caption's typed text is a prefix of
      its target, whatever the target is. */
  lemma ClearedTypingIsPrefix(subs: seq<Subtitle>, extract: string -> string, k: nat)
    requires k < |subs|
    ensures TypedOrEmpty(ClearTyped(subs)[k]) <= extract(ClearTyped(subs)[k].text)
  {
  }

  /** The application state that the caption engine reads and writes. */
  class Session {
    var subtitles: seq<Subtitle>
    var currentTime: int
    var videoAttached: bool
    var autoPause: bool
    var manualSeekInProgress: bool
    var lastPaused: Option<int>
    var hideLetters: bool
    var textTyping: bool
    var previewOpen: bool

    /** The pause tracking only ever names a caption index or nothing, and typing
        mode always has hide-letters on: enabling typing turns it on and its
        checkbox is disabled while typing is on. */
    predicate Valid()
      reads this
    {
      ValidLastPaused(lastPaused) && (textTyping ==> hideLetters)
    }

    /** The initial state; the two saved settings are read from storage by the
        caller. Storage is written only by the two toggles, which never save
        typing on with hide-letters off. */
    constructor(savedHideLetters: bool, savedTextTyping: bool)
      requires savedTextTyping ==> savedHideLetters
      ensures Valid()
      ensures subtitles == [] && currentTime == 0 && !videoAttached
      ensures !autoPause && !manualSeekInProgress && lastPaused == None && !previewOpen
      ensures hideLetters == savedHideLetters && textTyping == savedTextTyping
    {
      subtitles := [];
      currentTime := 0;
      videoAttached := false;
      autoPause := false;
      manualSeekInProgress := false;
      lastPaused := None;
      hideLetters := savedHideLetters;
      textTyping := savedTextTyping;
      previewOpen := false;
    }

    /** The video element appears or goes away. */
    method SetVideo(attached: bool)
      modifies this
      ensures videoAttached == attached
      ensures subtitles == old(subtitles) && currentTime == old(currentTime)
      ensures autoPause == old(autoPause) && manualSeekInProgress == old(manualSeekInProgress)
      ensures lastPaused == old(lastPaused) && hideLetters == old(hideLetters)
      ensures textTyping == old(textTyping) && previewOpen == old(previewOpen)
    {
      videoAttached := attached;
    }

    /** A subtitle file is chosen: the list is replaced when the file holds a
        caption and left as it is otherwise; the pause tracking is not reset. */
    method LoadSubtitleFile(fileText: string) returns (outcome: LoadOutcome)
      requires Valid()
      modifies this
      ensures Valid()
      ensures outcome == LoadSubtitleText(fileText)
      ensures subtitles == if outcome.Loaded? then outcome.subtitles else old(subtitles)
      ensures currentTime == old(currentTime) && videoAttached == old(videoAttached)
      ensures autoPause == old(autoPause) && manualSeekInProgress == old(manualSeekInProgress)
      ensures lastPaused == old(lastPaused) && hideLetters == old(hideLetters)
      ensures textTyping == old(textTyping) && previewOpen == old(previewOpen)
    {
      outcome := HandleSubtitleText(fileText);
      if outcome.Loaded? {
        subtitles := outcome.subtitles;
      }
    }

    /** A click on a caption with a video present seeks to its start and plays
        (the returned seek time), marks a manual seek in progress and forgets
        the last pause; without a video nothing happens. */
    method SubtitleClick(sub: Subtitle) returns (seekTo: Option<int>)
      requires Valid()
      modifies this
      ensures Valid()
      ensures seekTo == if old(videoAttached) then Some(sub.start) else None
      ensures old(videoAttached) ==>
        manualSeekInProgress && lastPaused == None && currentTime == sub.start
      ensures !old(videoAttached) ==>
        manualSeekInProgress == old(manualSeekInProgress) && lastPaused == old(lastPaused)
        && currentTime == old(currentTime)
      ensures subtitles == old(subtitles) && videoAttached == old(videoAttached)
      ensures autoPause == old(autoPause) && hideLetters == old(hideLetters)
      ensures textTyping == old(textTyping) && previewOpen == old(previewOpen)
    {
      if videoAttached {
        manualSeekInProgress := true;
        lastPaused := None;
        currentTime := sub.start;
        seekTo := Some(sub.start);
      } else {
        seekTo := None;
      }
    }

    /** The timer started by a click has fired: the manual seek is over. */
    method SeekGuardExpired()
      requires Valid()
      modifies this
      ensures Valid()
      ensures !manualSeekInProgress
      ensures subtitles == old(subtitles) && currentTime == old(currentTime)
      ensures videoAttached == old(videoAttached) && autoPause == old(autoPause)
      ensures lastPaused == old(lastPaused) && hideLetters == old(hideLetters)
      ensures textTyping == old(textTyping) && previewOpen == old(previewOpen)
    {
      manualSeekInProgress := false;
    }

    /** `handleTimeUpdate`: records the time and, when auto-pause is on, a video
        is present, captions are loaded and no manual seek is in progress, stops
        at the caption `PauseTarget` names (the returned signal) and remembers it. */
    method TimeUpdate(t: int) returns (pauseAt: Option<nat>)
      requires Valid()
      modifies this
      ensures Valid()
      ensures currentTime == t
      ensures pauseAt == if autoPause && videoAttached && |subtitles| > 0 && !manualSeekInProgress
        then PauseTarget(subtitles, t, old(lastPaused)) else None
      ensures lastPaused == if pauseAt.Some? then Some(pauseAt.value as int) else old(lastPaused)
      ensures subtitles == old(subtitles) && videoAttached == old(videoAttached)
      ensures autoPause == old(autoPause) && manualSeekInProgress == old(manualSeekInProgress)
      ensures hideLetters == old(hideLetters) && textTyping == old(textTyping)
      ensures previewOpen == old(previewOpen)
    {
      currentTime := t;
      pauseAt := None;
      if autoPause && videoAttached && |subtitles| > 0 && !manualSeekInProgress {
        pauseAt := PauseTarget(subtitles, t, lastPaused);
        if pauseAt.Some? {
          lastPaused := Some(pauseAt.value as int);
        }
      }
    }

    /** Flips auto-pause and forgets the last pause, in both directions. */
    method ToggleAutoPause()
      requires Valid()
      modifies this
      ensures Valid()
      ensures autoPause == !old(autoPause) && lastPaused == None
      ensures subtitles == old(subtitles) && currentTime == old(currentTime)
      ensures videoAttached == old(videoAttached) && manualSeekInProgress == old(manualSeekInProgress)
      ensures hideLetters == old(hideLetters) && textTyping == old(textTyping)
      ensures previewOpen == old(previewOpen)
    {
      autoPause := !autoPause;
      lastPaused := None;
    }

    /** Flips hide-letters and nothing else. The checkbox is disabled in typing
        mode, so the handler runs only with typing off. */
    method ToggleHideLetters()
      requires Valid() && !textTyping
      modifies this
      ensures Valid()
      ensures hideLetters == !old(hideLetters)
      ensures subtitles == old(subtitles) && currentTime == old(currentTime)
      ensures videoAttached == old(videoAttached) && autoPause == old(autoPause)
      ensures manualSeekInProgress == old(manualSeekInProgress) && lastPaused == old(lastPaused)
      ensures textTyping == old(textTyping) && previewOpen == old(previewOpen)
    {
      hideLetters := !hideLetters;
    }

    /** Flips typing mode and forgets the last pause; enabling it also turns
        hide-letters and auto-pause on and empties every typed text, disabling
        it leaves them as they are. */
    method ToggleTextTyping()
      requires Valid()
      modifies this
      ensures Valid()
      ensures textTyping == !old(textTyping) && lastPaused == None
      ensures textTyping ==> hideLetters && autoPause && subtitles == ClearTyped(old(subtitles))
      ensures !textTyping ==>
        hideLetters == old(hideLetters) && autoPause == old(autoPause) && subtitles == old(subtitles)
      ensures currentTime == old(currentTime) && videoAttached == old(videoAttached)
      ensures manualSeekInProgress == old(manualSeekInProgress) && previewOpen == old(previewOpen)
    {
      var newValue := !textTyping;
      textTyping := newValue;
      if newValue {
        hideLetters := true;
        autoPause := true;
        subtitles := ClearTyped(subtitles);
      }
      lastPaused := None;
    }

    /** `handleTextTyped` */
    method TextTyped(i: int, typed: string)
      requires Valid()
      modifies this
      ensures Valid()
      ensures subtitles == WithTyped(old(subtitles), i, typed)
      ensures currentTime == old(currentTime) && videoAttached == old(videoAttached)
      ensures autoPause == old(autoPause) && manualSeekInProgress == old(manualSeekInProgress)
      ensures lastPaused == old(lastPaused) && hideLetters == old(hideLetters)
      ensures textTyping == old(textTyping) && previewOpen == old(previewOpen)
    {
      subtitles := WithTyped(subtitles, i, typed);
    }

    /** `handleSubtitleSelectionChange` */
    method SelectionChange(i: int, selected: bool)
      requires Valid()
      modifies this
      ensures Valid()
      ensures subtitles == WithSelected(old(subtitles), i, selected)
      ensures currentTime == old(currentTime) && videoAttached == old(videoAttached)
      ensures autoPause == old(autoPause) && manualSeekInProgress == old(manualSeekInProgress)
      ensures lastPaused == old(lastPaused) && hideLetters == old(hideLetters)
      ensures textTyping == old(textTyping) && previewOpen == old(previewOpen)
    {
      subtitles := WithSelected(subtitles, i, selected);
    }

    /** `handleSelectAll` (`selected` true) and `handleClearSelection` (false). */
    method SetSelection(selected: bool)
      requires Valid()
      modifies this
      ensures Valid()
      ensures subtitles == SetAllSelected(old(subtitles), selected)
      ensures currentTime == old(currentTime) && videoAttached == old(videoAttached)
      ensures autoPause == old(autoPause) && manualSeekInProgress == old(manualSeekInProgress)
      ensures lastPaused == old(lastPaused) && hideLetters == old(hideLetters)
      ensures textTyping == old(textTyping) && previewOpen == old(previewOpen)
    {
      subtitles := SetAllSelected(subtitles, selected);
    }

    /** `handlePreviewSelected`: opens the preview only when a caption is selected. */
    method PreviewSelected() returns (didOpen: bool)
      requires Valid()
      modifies this
      ensures Valid()
      ensures didOpen <==> Selected(subtitles) != []
      ensures previewOpen == (didOpen || old(previewOpen))
      ensures subtitles == old(subtitles) && currentTime == old(currentTime)
      ensures videoAttached == old(videoAttached) && autoPause == old(autoPause)
      ensures manualSeekInProgress == old(manualSeekInProgress) && lastPaused == old(lastPaused)
      ensures hideLetters == old(hideLetters) && textTyping == old(textTyping)
    {
      didOpen := Selected(subtitles) != [];
      if didOpen {
        previewOpen := true;
      }
    }

    /** The preview's close button. */
    method ClosePreview()
      requires Valid()
      modifies this
      ensures Valid()
      ensures !previewOpen
      ensures subtitles == old(subtitles) && currentTime == old(currentTime)
      ensures videoAttached == old(videoAttached) && autoPause == old(autoPause)
      ensures manualSeekInProgress == old(manualSeekInProgress) && lastPaused == old(lastPaused)
      ensures hideLetters == old(hideLetters) && textTyping == old(textTyping)
    {
      previewOpen := false;
    }

    /** `handleDownloadSelected`: the records to export, or `None` when nothing is
        selected. Nothing in the session changes. */
    method DownloadSelected() returns (records: Option<seq<Subtitle>>)
      requires Valid()
      ensures records == if Selected(subtitles) == [] then None else Some(Selected(subtitles))
      ensures records.Some? ==> forall x :: x in records.value <==> x in subtitles && x.selected
    {
      var chosen := Selected(subtitles);
      if chosen == [] {
        records := None;
      } else {
        records := Some(chosen);
      }
    }

    /** A key press reaching the player: the caption displayed at the current
        time judges the key and an accepted key becomes its new typed text. */
    method KeyDown(key: string, extract: string -> string) returns (typed: Option<Typed>)
      requires Valid()
      modifies this
      ensures Valid()
      ensures typed == JudgeKey(textTyping, Resolve(old(subtitles), currentTime, autoPause).index,
        old(subtitles), key, extract)
      ensures subtitles == if typed.Some? then WithTyped(old(subtitles), typed.value.index, typed.value.typedText)
        else old(subtitles)
      ensures currentTime == old(currentTime) && videoAttached == old(videoAttached)
      ensures autoPause == old(autoPause) && manualSeekInProgress == old(manualSeekInProgress)
      ensures lastPaused == old(lastPaused) && hideLetters == old(hideLetters)
      ensures textTyping == old(textTyping) && previewOpen == old(previewOpen)
    {
      var shown := Resolve(subtitles, currentTime, autoPause);
      typed := JudgeKey(textTyping, shown.index, subtitles, key, extract);
      if typed.Some? {
        subtitles := WithTyped(subtitles, typed.value.index, typed.value.typedText);
      }
    }
  }
}
