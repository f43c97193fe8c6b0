/** The body of the selected-captions preview of src/components/PreviewModal.tsx:
    the no-selection message, or one entry per caption in order, each with its
    index label, its time range and its lines. */
module PreviewModal {
  import opened JsString
  import opened Types
  import opened SubtitleLine
  import opened FileUploader

  /** `subtitle.index && …`: the index is present and not 0. */
  predicate IndexIsTruthy(index: Option<int>) {
    index.Some? && index.value != 0
  }

  /** The index slot as written: `{subtitle.index && <span>#{subtitle.index}</span>}`.
      An absent index renders nothing, but an index of 0 is a falsy number that
      the expression yields as it is, and a number renders as its digits. */
  function IndexSlotAsWritten(index: Option<int>): (r: string)
    ensures IndexIsTruthy(index) <==> r != [] && r[0] == '#'
    ensures index.None? ==> r == []
  {
    match index
    case None => ""
    case Some(i) => if i == 0 then "0" else "#" + IntToString(i)
  }

  /** The `#index` label appears only for a truthy index, so the first loaded
      caption (index 0) never has one and shows a stray `0` instead. */
  lemma LoadedLabelAsWritten(fileText: string, i: nat)
    requires LoadSubtitleText(fileText).Loaded?
    requires i < |LoadSubtitleText(fileText).subtitles|
    ensures var slot := IndexSlotAsWritten(LoadSubtitleText(fileText).subtitles[i].index);
      && (slot != [] && slot[0] == '#' <==> i != 0)
      && (i == 0 ==> slot == "0")
  {
    LoadedRecord(fileText, i);
  }

  /** The index slot as evidently intended: a label for every caption that has an index. */
  function IndexSlot(index: Option<int>): (r: string)
    ensures index.None? <==> r == []
    ensures index.Some? ==> r[0] == '#'
  {
    match index
    case None => ""
    case Some(i) => "#" + IntToString(i)
  }

  /** The intended label spells the index: `#` followed by its digits. */
  lemma IndexSlotReadsBack(i: nat)
    ensures var r := IndexSlot(Some(i));
      |r| >= 2 && r[0] == '#' && AllDigits(r[1..]) && DigitsValue(r[1..]) == i
  {
    NatToStringRoundTrip(i);
    var r := IndexSlot(Some(i));
    assert r[1..] == NatToString(i);
  }

  /** Every loaded caption, the first included, gets a label with its index. */
  lemma LoadedLabel(fileText: string, i: nat)
    requires LoadSubtitleText(fileText).Loaded?
    requires i < |LoadSubtitleText(fileText).subtitles|
    ensures var r := IndexSlot(LoadSubtitleText(fileText).subtitles[i].index);
      |r| >= 2 && r[0] == '#' && AllDigits(r[1..]) && DigitsValue(r[1..]) == i
  {
    LoadedRecord(fileText, i);
    IndexSlotReadsBack(i);
  }

  /** One caption of the preview list. */
  datatype PreviewEntry = PreviewEntry(indexSlot: string, time: string, lines: seq<string>)

  /** What the preview body shows. */
  datatype PreviewBody = NoSelectionMessage | Entries(entries: seq<PreviewEntry>)

  /** One entry as the page renders it, with the index slot as written. */
  function EntryOf(sub: Subtitle): PreviewEntry {
    PreviewEntry(IndexSlotAsWritten(sub.index), TimeRange(sub), SplitOn(sub.text, '\n'))
  }

  /** The modal: nothing when closed; the no-selection message for an empty
      list; otherwise one entry per caption. */
  function Preview(isOpen: bool, subs: seq<Subtitle>): (v: Option<PreviewBody>)
    ensures !isOpen <==> v.None?
  {
    if !isOpen then None
    else if |subs| == 0 then Some(NoSelectionMessage)
    else Some(Entries(seq(|subs|, k requires 0 <= k < |subs| => EntryOf(subs[k]))))
  }

  /** An open preview shows the no-selection message exactly when the list is empty. */
  lemma PreviewMessageIffEmpty(subs: seq<Subtitle>)
    ensures Preview(true, subs) == Some(NoSelectionMessage) <==> subs == []
    ensures subs != [] ==> Preview(true, subs).value.Entries?
  {
  }

  /** An open preview of a non-empty list has one entry per caption, in the list's
      order: the `k`-th entry shows the `k`-th caption's index slot as written (a
      bare `0` for index 0), its time range and its lines, and the lines join
      back to the caption's text. */
  lemma PreviewEntriesInOrder(subs: seq<Subtitle>, k: nat)
    requires k < |subs|
    ensures var body := Preview(true, subs).value;
      && body.Entries? && |body.entries| == |subs|
      && body.entries[k].indexSlot == IndexSlotAsWritten(subs[k].index)
      && (subs[k].index == Some(0) ==> body.entries[k].indexSlot == "0")
      && body.entries[k].time == FormatTime(subs[k].start) + " - " + FormatTime(subs[k].end)
      && Join(body.entries[k].lines, '\n') == subs[k].text
  {
    JoinSplit(subs[k].text, '\n');
  }

  /** One entry with the intended index slot. */
  function EntryIntended(sub: Subtitle): PreviewEntry {
    PreviewEntry(IndexSlot(sub.index), TimeRange(sub), SplitOn(sub.text, '\n'))
  }

  /** The modal with the intended index slot. */
  function PreviewIntended(isOpen: bool, subs: seq<Subtitle>): (v: Option<PreviewBody>)
    ensures !isOpen <==> v.None?
  {
    if !isOpen then None
    else if |subs| == 0 then Some(NoSelectionMessage)
    else Some(Entries(seq(|subs|, k requires 0 <= k < |subs| => EntryIntended(subs[k]))))
  }

  /** The page as written and as intended differ only in the index slot of a
      caption whose index is 0: every other entry, and the time range and lines
      of every entry, are the same. */
  lemma PreviewDiffersOnlyAtIndexZero(isOpen: bool, subs: seq<Subtitle>, k: nat)
    requires isOpen && k < |subs|
    ensures var shown, meant := Preview(isOpen, subs).value, PreviewIntended(isOpen, subs).value;
      && shown.Entries? && meant.Entries? && |shown.entries| == |meant.entries| == |subs|
      && shown.entries[k].time == meant.entries[k].time
      && shown.entries[k].lines == meant.entries[k].lines
      && (shown.entries[k].indexSlot == meant.entries[k].indexSlot <==> subs[k].index != Some(0))
  {
  }
}
