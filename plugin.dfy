/** OrthographyPlugin.onReplaceWord: builds the anchor for replaceWord from
    the data attributes of the clicked replacement span. */
module Plugin {
  import opened Types
  import opened ColRow
  import opened Editor
  import Decimal

  /** The data attributes onReplaceWord reads. `data-begin` is written as
      `${begin}` for the alert's integer begin, so the model keeps that
      integer and renders it where the source reads the attribute. */
  datatype SpanData = SpanData(text: string, toreplace: string, begin: int)

  /** What `data-text` holds: the alert's highlightText for Prepositions,
      its text for every other category. */
  function DataText(a: Alert): (s: string)
    ensures a.category == Prepositions ==> s == a.highlightText
    ensures a.category != Prepositions ==> s == a.text
  {
    if a.category == Prepositions then a.highlightText else a.text
  }

  /** The attributes of the span offering replacement r for alert a. */
  function SpanFor(a: Alert, r: string): (span: SpanData)
    ensures span.begin == a.begin && span.toreplace == r
    ensures span.text == (if a.category == Prepositions then a.highlightText else a.text)
  {
    SpanData(DataText(a), r, a.begin)
  }

  /** `{ begin: +begin, end: +end, len: +origWordLen }` where
      `end = begin + origWordLen` concatenates a string and a number. */
  function Anchor(span: SpanData): (w: OriginalWord)
    ensures w.begin == span.begin
    ensures w.len == |span.text|
    ensures w.end == (if span.begin >= 0
                      then span.begin * Decimal.Pow10(|Decimal.Show(|span.text|)|) + |span.text|
                      else span.begin * Decimal.Pow10(|Decimal.Show(|span.text|)|) - |span.text|)
  {
    var beginAttr := Decimal.Show(span.begin);
    var origWordLen := |span.text|;
    Decimal.ParseShow(span.begin);
    Decimal.ParseConcat(span.begin, origWordLen);
    OriginalWord(Decimal.Parse(beginAttr), Decimal.Parse(beginAttr + Decimal.Show(origWordLen)), origWordLen)
  }

  /** onReplaceWord: replaces the anchored word with `data-toreplace`. */
  method OnReplaceWord(editor: OrthographyEditor, span: SpanData)
    modifies editor`lines
    ensures editor.lines == (if editor.attached && span.toreplace != []
                             then ReplaceAt(old(editor.lines), Anchor(span), span.toreplace)
                             else old(editor.lines))
  {
    var origWordLen := |span.text|;
    var newWord := span.toreplace;
    var anchor := Anchor(span);
    editor.ReplaceWord(anchor, newWord);
  }

  /** The anchor's begin reads back the alert's offset, and its end is the
      decimal concatenation, not the sum: begin 12 and a three-character
      word give end 123. */
  lemma AnchorEndExample()
    ensures Anchor(SpanData("abc", "x", 12)) == OriginalWord(12, 123, 3)
  {
  }

  /** replaceWord never reads `end`: anchors that differ only there replace
      the same range. */
  lemma {:induction false} ReplaceIgnoresEnd(lines: Lines, begin: int, end1: int, end2: int, len: nat, word: seq<char>)
    ensures ReplaceAt(lines, OriginalWord(begin, end1, len), word)
         == ReplaceAt(lines, OriginalWord(begin, end2, len), word)
  {
  }

  /** The length replaced after a click equals the length highlighted
      (text.length, or highlightText.length when text is empty) exactly in
      these cases: for Prepositions, when text is empty or as long as
      highlightText; otherwise, when text is non-empty or highlightText is
      empty too. */
  lemma {:induction false} ReplaceLengthMatchesHighlight(a: Alert, r: string)
    ensures Anchor(SpanFor(a, r)).len == HighlightLen(a) <==>
              if a.category == Prepositions
              then |a.text| == 0 || |a.text| == |a.highlightText|
              else |a.text| > 0 || |a.highlightText| == 0
  {
  }

  /** A click anchors at the offset the alert was highlighted from. */
  lemma {:induction false} SpanAnchorsAtAlert(a: Alert, r: string)
    ensures Anchor(SpanFor(a, r)).begin == WordOf(a).begin
    ensures a.category != Prepositions && |a.text| > 0 ==> Anchor(SpanFor(a, r)).len == WordOf(a).len
  {
  }
}
