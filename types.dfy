/** The caption record shared by every component (the `Subtitle` interface of src/types.ts). */
module Types {

  datatype Option<T> = None | Some(value: T)

  /** The value of an `Option` as a list of zero or one element. */
  function OptionToSeq<T>(o: Option<T>): (r: seq<T>)
    ensures |r| == if o.Some? then 1 else 0
    ensures o.Some? ==> r[0] == o.value
  {
    match o
    case Some(x) => [x]
    case None => []
  }

  /** One caption. Times are integer milliseconds. `index` and `typedText` are
      optional fields of the record, so they are `Option`s; an absent `selected`
      reads as false everywhere it is used, so it is a plain `bool`. */
  datatype Subtitle = Subtitle(
    start: int,
    end: int,
    text: string,
    index: Option<int>,
    selected: bool,
    typedText: Option<string>)

  /** `typedText || ''`: an absent and an empty typed text read alike. */
  function TypedOrEmpty(s: Subtitle): string {
    match s.typedText
    case Some(t) => t
    case None => ""
  }

  /** The closed interval test `start <= t && t <= end` used to find the active caption. */
  predicate Contains(s: Subtitle, t: int) {
    s.start <= t <= s.end
  }
}
