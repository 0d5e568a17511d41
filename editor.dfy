/** OrthographyEditor: resolves alerts against the editor's line buffer,
    paints one tagged range per resolved alert and rewrites a flagged word.

    The host editor (CodeMirror 5 behind Obsidian) is represented by two
    fields: `lines`, what `lineCount()` and `getLine(i)` read and
    `replaceRange` writes, and `highlights`, the ranges `addHighlights` has
    added and `removeHighlights` has not yet removed. */
module Editor {
  import opened Types
  import opened ColRow
  import Decimal

  /** One `addHighlights` entry: the range from (line, fromCh) to
      (line, toCh) with its class name. */
  datatype Highlight = Highlight(line: int, fromCh: int, toCh: int, className: string)

  const HighlightClass: string := "obsidian-orthography-highlight"

  const BeginPrefix: string := HighlightClass + " begin-"

  /** `${O_HIGHLIGHT} begin-${begin}`: the plugin's class, then the offset
      in decimal. */
  function HighlightClassName(begin: int): (r: string)
    ensures |BeginPrefix| < |r| && r[..|BeginPrefix|] == BeginPrefix
    ensures Decimal.IsSignedDigits(r[|BeginPrefix|..])
  {
    var r := BeginPrefix + Decimal.Show(begin);
    assert r[|BeginPrefix|..] == Decimal.Show(begin);
    r
  }

  /** `+` applied to what follows the prefix gives the offset back. */
  lemma {:induction false} HighlightClassNameReadsBack(begin: int)
    ensures Decimal.Parse(HighlightClassName(begin)[|BeginPrefix|..]) == begin
  {
    var r := HighlightClassName(begin);
    assert r[|BeginPrefix|..] == Decimal.Show(begin);
    Decimal.ParseShow(begin);
  }

  /** The highlight highlightWord adds for an anchor, or None when its offset
      does not resolve. */
  function PaintWord(lines: Lines, w: OriginalWord): (r: Option<Highlight>)
    ensures r.None? <==> ColRowOf(lines, w.begin).None?
    ensures r.Some? ==>
              && r.value.line == ColRowOf(lines, w.begin).value.row
              && r.value.fromCh == ColRowOf(lines, w.begin).value.col
              && r.value.toCh - r.value.fromCh == w.len
              && r.value.className == HighlightClassName(w.begin)
  {
    match ColRowOf(lines, w.begin)
    case None => None
    case Some(p) => Some(Highlight(p.row, p.col, p.col + w.len, HighlightClassName(w.begin)))
  }

  /** A `forEach` in which each element adds at most one item: the items, in
      the order of the elements. */
  function Collect<A, B>(f: A -> Option<B>, s: seq<A>): (r: seq<B>)
    ensures |r| <= |s|
  {
    if s == [] then [] else Collect(f, s[..|s| - 1]) + OptionToSeq(f(s[|s| - 1]))
  }

  /** The highlights highlightWords adds for a list of alerts, in order. */
  function PaintAll(lines: Lines, alerts: seq<Alert>): (r: seq<Highlight>)
    ensures |r| <= |alerts|
  {
    Collect(a => PaintWord(lines, WordOf(a)), alerts)
  }

  /** CodeMirror 5's `clipToLen`: a column past the end becomes the line
      length, and a negative one counts back from the end (`Math.max(0,
      linelen + ch)`). */
  function Clip(ch: int, lineLength: nat): (r: nat)
    ensures r <= lineLength
    ensures 0 <= ch <= lineLength ==> r == ch
    ensures ch > lineLength ==> r == lineLength
    ensures ch < 0 ==> r == if lineLength + ch >= 0 then lineLength + ch else 0
  {
    if ch > lineLength then lineLength else if ch < 0 then (if lineLength + ch >= 0 then lineLength + ch else 0) else ch
  }

  /** The line after `replaceRange(word, {ch: from}, {ch: to})`: both ends
      are clipped, and CodeMirror 5 swaps them when `to` then lies before
      `from`. */
  function Splice(line: seq<char>, from: int, to: int, word: seq<char>): (r: seq<char>)
    ensures var a, b := Clip(from, |line|), Clip(to, |line|);
            var lo, hi := if a <= b then a else b, if a <= b then b else a;
            |r| == |line| - (hi - lo) + |word|
    ensures 0 <= from <= to <= |line| ==> r == line[..from] + word + line[to..]
  {
    var a, b := Clip(from, |line|), Clip(to, |line|);
    if a <= b then line[..a] + word + line[b..] else line[..b] + word + line[a..]
  }

  /** The buffer after replaceWord with a non-empty replacement: unchanged
      when the anchor does not resolve, otherwise line `row` spliced. Only
      that line changes, and the line count is kept. */
  function ReplaceAt(lines: Lines, w: OriginalWord, newWord: seq<char>): (r: Lines)
    ensures |r| == |lines|
    ensures ColRowOf(lines, w.begin).None? ==> r == lines
    ensures ColRowOf(lines, w.begin).Some? ==>
              forall i :: 0 <= i < |lines| && i != ColRowOf(lines, w.begin).value.row ==> r[i] == lines[i]
  {
    match ColRowOf(lines, w.begin)
    case None => lines
    case Some(p) =>
      lines[p.row := Splice(lines[p.row], p.col, p.col + w.len, newWord)]
  }

  // ---------------------------------------------------------------------
  // What painting promises

  /** Two anchors get the same class name exactly when their offsets are
      equal, so the name identifies an offset (and alerts that share an
      offset share a name). */
  lemma {:induction false} HighlightClassNameInjective(b1: int, b2: int)
    ensures HighlightClassName(b1) == HighlightClassName(b2) <==> b1 == b2
  {
    var prefix := HighlightClass + " begin-";
    if HighlightClassName(b1) == HighlightClassName(b2) {
      assert Decimal.Show(b1) == HighlightClassName(b1)[|prefix|..];
      assert Decimal.Show(b2) == HighlightClassName(b2)[|prefix|..];
      Decimal.ShowInjective(b1, b2);
    }
  }

  /** y is the item f gives for one of the elements of s. */
  predicate CollectedFrom<A, B(==)>(f: A -> Option<B>, s: seq<A>, y: B) {
    exists i :: 0 <= i < |s| && f(s[i]) == Some(y)
  }

  lemma {:induction false} CollectFrom<A, B>(f: A -> Option<B>, s: seq<A>)
    ensures forall k :: 0 <= k < |Collect(f, s)| ==> CollectedFrom(f, s, Collect(f, s)[k])
  {
    if s != [] {
      var n := |s|;
      var init := s[..n - 1];
      CollectFrom(f, init);
      var prev := Collect(f, init);
      var all := Collect(f, s);
      assert all == prev + OptionToSeq(f(s[n - 1]));
      forall k | 0 <= k < |all| ensures CollectedFrom(f, s, all[k]) {
        if k < |prev| {
          assert CollectedFrom(f, init, prev[k]);
          var i :| 0 <= i < n - 1 && f(init[i]) == Some(prev[k]);
          assert s[i] == init[i] && all[k] == prev[k];
        } else {
          assert f(s[n - 1]) == Some(all[k]);
        }
      }
    }
  }

  lemma {:induction false} CollectAt<A, B>(f: A -> Option<B>, s: seq<A>, i: nat)
    requires i < |s| && f(s[i]).Some?
    ensures f(s[i]).value in Collect(f, s)
  {
    var n := |s|;
    var init := s[..n - 1];
    var prev := Collect(f, init);
    var extra := OptionToSeq(f(s[n - 1]));
    assert Collect(f, s) == prev + extra;
    if i < n - 1 {
      assert s[i] == init[i];
      CollectAt(f, init, i);
    } else {
      assert extra == [f(s[i]).value];
    }
  }

  lemma {:induction false} CollectCount<A, B>(f: A -> Option<B>, s: seq<A>)
    ensures |Collect(f, s)| <= |s|
    ensures |Collect(f, s)| == |s| <==> forall i :: 0 <= i < |s| ==> f(s[i]).Some?
  {
    if s != [] {
      var n := |s|;
      var init := s[..n - 1];
      CollectCount(f, init);
      assert |Collect(f, s)| == |Collect(f, init)| + |OptionToSeq(f(s[n - 1]))|;
      if forall i :: 0 <= i < n ==> f(s[i]).Some? {
        forall i | 0 <= i < n - 1 ensures f(init[i]).Some? {
          assert init[i] == s[i];
        }
      }
      if |Collect(f, s)| == n {
        forall i | 0 <= i < n ensures f(s[i]).Some? {
          if i < n - 1 {
            assert init[i] == s[i];
          }
        }
      }
    }
  }

  /** h is the range painted for one of the alerts. */
  predicate PaintedFor(lines: Lines, alerts: seq<Alert>, h: Highlight) {
    exists i :: 0 <= i < |alerts| && PaintWord(lines, WordOf(alerts[i])) == Some(h)
  }

  /** Every painted range comes from one of the alerts. */
  lemma {:induction false} PaintAllFromAlerts(lines: Lines, alerts: seq<Alert>)
    ensures forall k :: 0 <= k < |PaintAll(lines, alerts)| ==> PaintedFor(lines, alerts, PaintAll(lines, alerts)[k])
  {
    var f := a => PaintWord(lines, WordOf(a));
    CollectFrom(f, alerts);
    forall k | 0 <= k < |PaintAll(lines, alerts)| ensures PaintedFor(lines, alerts, PaintAll(lines, alerts)[k]) {
      var i :| 0 <= i < |alerts| && f(alerts[i]) == Some(Collect(f, alerts)[k]);
    }
  }

  /** Every alert whose offset resolves is painted. */
  lemma {:induction false} PaintAllComplete(lines: Lines, alerts: seq<Alert>)
    ensures forall i :: 0 <= i < |alerts| && ColRowOf(lines, alerts[i].begin).Some? ==>
              PaintWord(lines, WordOf(alerts[i])).value in PaintAll(lines, alerts)
  {
    var f := a => PaintWord(lines, WordOf(a));
    forall i | 0 <= i < |alerts| && ColRowOf(lines, alerts[i].begin).Some?
      ensures PaintWord(lines, WordOf(alerts[i])).value in PaintAll(lines, alerts)
    {
      CollectAt(f, alerts, i);
    }
  }

  /** An alert adds one range or nothing: there are at most as many ranges as
      alerts, and as many exactly when every alert resolves. */
  lemma {:induction false} PaintAllCount(lines: Lines, alerts: seq<Alert>)
    ensures |PaintAll(lines, alerts)| <= |alerts|
    ensures |PaintAll(lines, alerts)| == |alerts| <==>
              forall i :: 0 <= i < |alerts| ==> ColRowOf(lines, alerts[i].begin).Some?
  {
    var f := a => PaintWord(lines, WordOf(a));
    CollectCount(f, alerts);
    assert forall i :: 0 <= i < |alerts| ==> (f(alerts[i]).Some? <==> ColRowOf(lines, alerts[i].begin).Some?);
  }

  /** Unless line 0 is empty and the offset is 0, a painted range that fits
      its line covers exactly the characters the checker flagged in the
      joined text. */
  lemma {:induction false} HighlightCoversFlaggedText(lines: Lines, w: OriginalWord, h: Highlight)
    requires |lines| > 0 && (|lines[0]| > 0 || w.begin > 0)
    requires PaintWord(lines, w) == Some(h)
    requires 0 <= h.line < |lines| && h.toCh <= |lines[h.line]|
    ensures
            && 0 <= h.line < |lines|
            && 0 <= h.fromCh <= h.toCh <= |lines[h.line]|
            && 0 <= w.begin <= w.begin + w.len <= |Join(lines)|
            && Join(lines)[w.begin .. w.begin + w.len] == lines[h.line][h.fromCh .. h.toCh]
  {
    PaintedPosition(lines, w, h);
    CoversAt(lines, w.begin, w.len, h.line, h.fromCh, h.toCh);
  }

  lemma {:induction false} CoversAt(lines: Lines, begin: int, len: nat, line: nat, fromCh: int, toCh: int)
    requires |lines| > 0 && (|lines[0]| > 0 || begin > 0)
    requires ColRowOf(lines, begin) == Some(Pos(fromCh, line))
    requires toCh == fromCh + len && line < |lines| && toCh <= |lines[line]|
    ensures
            && 0 <= fromCh <= toCh <= |lines[line]|
            && 0 <= begin <= begin + len <= |Join(lines)|
            && Join(lines)[begin .. begin + len] == lines[line][fromCh .. toCh]
  {
    PositionSlice(lines, begin, len, Pos(fromCh, line));
  }

  lemma PaintedPosition(lines: Lines, w: OriginalWord, h: Highlight)
    requires PaintWord(lines, w) == Some(h)
    ensures h.line >= 0 && ColRowOf(lines, w.begin) == Some(Pos(h.fromCh, h.line))
    ensures h.toCh == h.fromCh + w.len
  {
  }

  // ---------------------------------------------------------------------
  // What replacing promises

  /** Unless line 0 is empty and the offset is 0, with the word inside its
      line, replacing in the line buffer is replacing [begin, begin + len)
      in the joined text. */
  lemma {:induction false} ReplaceIsFlatSplice(lines: Lines, w: OriginalWord, newWord: seq<char>, p: Pos)
    requires |lines| > 0 && (|lines[0]| > 0 || w.begin > 0)
    requires ColRowOf(lines, w.begin) == Some(p)
    requires p.row < |lines| && p.col + w.len <= |lines[p.row]|
    ensures 0 <= w.begin <= w.begin + w.len <= |Join(lines)|
    ensures Join(ReplaceAt(lines, w, newWord))
         == Join(lines)[..w.begin] + newWord + Join(lines)[w.begin + w.len..]
  {
    PositionSplice(lines, w.begin, w.len, newWord, p);
    var line := lines[p.row];
    assert Splice(line, p.col, p.col + w.len, newWord) == line[..p.col] + newWord + line[p.col + w.len..];
  }

  /** The quirk seen through replaceWord: with an empty first line, offset 0
      resolves to column -1 of line 1, so replaceRange receives (1, -1) to
      (1, 0). The host turns column -1 into the last column (1) and swaps
      the ends, so the one character replaced is the 'c' at [0, 1). */
  lemma ReplaceAfterEmptyFirstLine()
    ensures ColRowOf(["", "cd"], 0) == Some(Pos(-1, 1))
    ensures ReplaceAt(["", "cd"], OriginalWord(0, 1, 1), "X") == ["", "Xd"]
  {
    EmptyFirstLineQuirk(["", "cd"]);
    assert Splice("cd", -1, 0, "X") == "Xd";
  }

  class OrthographyEditor {
    /** Whether `this.editor` is set; every operation but clearing is a no-op
        without it. */
    const attached: bool
    var lines: Lines
    var highlights: seq<Highlight>

    constructor (attached: bool, lines: Lines)
      ensures this.attached == attached && this.lines == lines && highlights == []
    {
      this.attached := attached;
      this.lines := lines;
      highlights := [];
    }

    /** getColRow: one pass over the lines with a running total `ttl` of the
        flat offsets consumed so far. */
    method GetColRow(w: OriginalWord) returns (result: Option<Pos>)
      ensures result == (if attached then ColRowOf(lines, w.begin) else None)
    {
      result := None;
      if !attached {
        return;
      }
      var ttl := 0;
      var row := 0;
      var begin := w.begin;
      var count := |lines|;
      for i := 0 to count
        invariant row == i
        invariant ttl == if i == 0 then 0 else LineStart(lines, i) - 1
        invariant result == LastMatch(lines, begin, i)
      {
        var lineText := lines[i];
        var s := if ttl == 0 then ttl else ttl + 1;
        var lineTextLength := |lineText|;
        ttl := ttl + lineTextLength;
        if row > 0 {
          ttl := ttl + 1;
        }
        if begin >= s && begin <= ttl {
          var diff := ttl - lineTextLength;
          var col := begin - diff;
          result := Some(Pos(col, row));
        }
        row := row + 1;
      }
    }

    /** clearHighlightWords: removes every highlight this plugin added. */
    method ClearHighlightWords()
      modifies this`highlights
      ensures highlights == []
    {
      highlights := [];
    }

    /** destroy. */
    method Destroy()
      modifies this`highlights
      ensures highlights == []
    {
      ClearHighlightWords();
    }

    /** highlightWord: adds one single-line range for a resolved anchor. */
    method HighlightWord(w: OriginalWord)
      modifies this`highlights
      ensures highlights == old(highlights) + (if attached then OptionToSeq(PaintWord(lines, w)) else [])
    {
      if !attached {
        return;
      }
      var colRow := GetColRow(w);
      if colRow.None? {
        return;
      }
      var col, row := colRow.value.col, colRow.value.row;
      var h := Highlight(row, col, col + w.len, HighlightClassName(w.begin));
      assert PaintWord(lines, w) == Some(h);
      highlights := highlights + [h];
    }

    /** highlightWords: clears every highlight, then paints each alert with
        len = text.length, or highlightText.length when text is empty. */
    method HighlightWords(alerts: seq<Alert>)
      modifies this`highlights
      ensures highlights == (if attached then PaintAll(lines, alerts) else [])
    {
      ClearHighlightWords();
      if !attached || |alerts| == 0 {
        return;
      }
      for i := 0 to |alerts|
        invariant highlights == PaintAll(lines, alerts[..i])
      {
        var alert := alerts[i];
        var textLength := if |alert.text| != 0 then |alert.text| else |alert.highlightText|;
        var originalWord := OriginalWord(alert.begin, alert.end, textLength);
        HighlightWord(originalWord);
        assert alerts[..i + 1][..i] == alerts[..i];
      }
      assert alerts[..|alerts|] == alerts;
    }

    /** replaceWord: a no-op when the replacement is empty (falsy) or the
        anchor does not resolve; otherwise rewrites [col, col + len) of the
        resolved line. */
    method ReplaceWord(w: OriginalWord, newWord: seq<char>)
      modifies this`lines
      ensures lines == (if attached && newWord != [] then ReplaceAt(old(lines), w, newWord) else old(lines))
    {
      if !attached || newWord == [] {
        return;
      }
      var colRow := GetColRow(w);
      if colRow.None? {
        return;
      }
      var col, row := colRow.value.col, colRow.value.row;
        var line := lines[row];
      lines := lines[row := Splice(line, col, col + w.len, newWord)];
    }
  }
}
