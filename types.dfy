/** Values shared by the orthography plugin's core: the alerts returned by the
    remote checker and the anchor ("original word") derived from one. */
module Types {

  datatype Option<+T> = None | Some(value: T)

  /** The sub-list of an optional value: empty for None. */
  function OptionToSeq<T>(o: Option<T>): (r: seq<T>)
    ensures |r| <= 1
    ensures o.None? <==> r == []
    ensures o.Some? ==> r == [o.value]
  {
    match o
    case None => []
    case Some(v) => [v]
  }

  /** The checker's categories that change how a suggestion is rendered and
      which attribute carries the flagged text. */
  datatype Category =
    | Determiners | Formatting | BasicPunct | Wordiness | Conjunctions
    | Prepositions | OtherCategory

  /** One alert as the checker returns it. Strings are sequences of UTF-16
      code units, which is what `.length` counts.
      - `hidden`: None when the property is absent; only Some(true) hides.
      - `explanation`: None when the property is absent (`undefined`). */
  datatype Alert = Alert(
    begin: int,
    end: int,
    text: string,
    highlightText: string,
    explanation: Option<string>,
    hidden: Option<bool>,
    category: Category,
    replacements: seq<string>)

  /** The anchor the editor resolves: a flat offset and the length to mark. */
  datatype OriginalWord = OriginalWord(begin: int, end: int, len: nat)

  /** `alert.hidden !== true`: only the boolean true hides an alert. */
  predicate IsHidden(a: Alert)
    ensures !IsHidden(a) <==> a.hidden == None || a.hidden == Some(false)
  {
    match a.hidden
    case None => false
    case Some(h) => h
  }

  /** `alert.text.length || alert.highlightText.length`. */
  function HighlightLen(a: Alert): (n: nat)
    ensures |a.text| > 0 ==> n == |a.text|
    ensures |a.text| == 0 ==> n == |a.highlightText|
  {
    if |a.text| != 0 then |a.text| else |a.highlightText|
  }

  /** The anchor highlightWords builds for one alert. */
  function WordOf(a: Alert): (w: OriginalWord)
    ensures w.begin == a.begin && w.end == a.end && w.len == HighlightLen(a)
  {
    OriginalWord(a.begin, a.end, HighlightLen(a))
  }
}
