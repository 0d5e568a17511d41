/** The mapping from a flat character offset, as the remote checker reports
    it, to a (row, col) position in the editor's line buffer.

    The buffer is a sequence of lines without their separators; the flat text
    the checker saw is the lines joined by one '\n' each. */
module ColRow {
  import opened Types

  type Lines = seq<seq<char>>

  /** A resolved position: `{ col, row }`. The column can be negative (see
      RangeLow). */
  datatype Pos = Pos(col: int, row: nat)

  /** The flat text the checker receives: the lines joined by '\n'. */
  function Join(lines: Lines): seq<char>
  {
    if |lines| == 0 then []
    else if |lines| == 1 then lines[0]
    else Join(lines[..|lines| - 1]) + ['\n'] + lines[|lines| - 1]
  }

  /** Flat offset of the first character of line i: the lengths of the lines
      before it plus one separator after each of them. */
  function LineStart(lines: Lines, i: nat): nat
    requires i <= |lines|
  {
    if i == 0 then 0 else LineStart(lines, i - 1) + |lines[i - 1]| + 1
  }

  /** Flat offset just past the last character of line i. */
  function LineEnd(lines: Lines, i: nat): nat
    requires i < |lines|
  {
    LineStart(lines, i) + |lines[i]|
  }

  /** Length of the joined text. */
  function FlatLength(lines: Lines): nat
  {
    if |lines| == 0 then 0 else LineEnd(lines, |lines| - 1)
  }

  /** Lowest offset that getColRow accepts for line i. The loop keeps a
      running total `ttl` (the flat offset just past line i - 1) and takes
      `ttl === 0 ? ttl : ttl + 1` as the start, so it tests the total, not the
      row index: when line 0 is empty, line 1's range starts at 0, not at 1. */
  function RangeLow(lines: Lines, i: nat): (r: nat)
    requires i < |lines|
    ensures r == LineStart(lines, i) || (i == 1 && |lines[0]| == 0 && r == 0)
  {
    if i == 0 || LineStart(lines, i) == 1 then 0 else LineStart(lines, i)
  }

  /** Line i's range test `begin >= s && begin <= ttl`. */
  predicate Matches(lines: Lines, i: nat, begin: int)
    requires i < |lines|
    ensures Matches(lines, i, begin) ==> -1 <= begin - LineStart(lines, i) <= |lines[i]|
  {
    RangeLow(lines, i) <= begin <= LineEnd(lines, i)
  }

  /** The result after the first k lines: the last of them whose range holds
      begin (the loop never breaks, so a later match overwrites an earlier
      one), with column `begin - (ttl - lineTextLength)`. */
  function LastMatch(lines: Lines, begin: int, k: nat): (r: Option<Pos>)
    requires k <= |lines|
    ensures r.Some? ==> r.value.row < k && Matches(lines, r.value.row, begin)
    ensures r.Some? ==> -1 <= r.value.col <= |lines[r.value.row]|
  {
    if k == 0 then None
    else if Matches(lines, k - 1, begin) then Some(Pos(begin - LineStart(lines, k - 1), k - 1))
    else LastMatch(lines, begin, k - 1)
  }

  /** What getColRow returns for an offset: None for `undefined`. */
  function ColRowOf(lines: Lines, begin: int): (r: Option<Pos>)
    ensures r.Some? ==> r.value.row < |lines|
    ensures r.Some? ==> -1 <= r.value.col <= |lines[r.value.row]|
    ensures r.Some? ==> 0 <= begin
  {
    LastMatch(lines, begin, |lines|)
  }

  // ---------------------------------------------------------------------
  // Layout of the joined text

  lemma {:induction false} LineStartMonotone(lines: Lines, i: nat, j: nat)
    requires i < j <= |lines|
    ensures LineEnd(lines, i) < LineStart(lines, j)
    decreases j
  {
    if i < j - 1 {
      LineStartMonotone(lines, i, j - 1);
    }
  }

  /** Line starts do not depend on the lines after them. */
  lemma {:induction false} PrefixLineStart(lines: Lines, k: nat, i: nat)
    requires i <= k <= |lines|
    ensures LineStart(lines[..k], i) == LineStart(lines, i)
  {
    if i > 0 {
      PrefixLineStart(lines, k, i - 1);
    }
  }

  /** The joined text is as long as the flat length counts. */
  lemma {:induction false} JoinLength(lines: Lines)
    ensures |Join(lines)| == FlatLength(lines)
  {
    var n := |lines|;
    if n >= 2 {
      JoinLength(lines[..n - 1]);
      PrefixLineStart(lines, n - 1, n - 2);
    }
  }

  /** Character c of line i sits at flat offset LineStart(i) + c. */
  lemma {:induction false} JoinAt(lines: Lines, i: nat, c: nat)
    requires i < |lines| && c < |lines[i]|
    ensures LineStart(lines, i) + c < |Join(lines)|
    ensures Join(lines)[LineStart(lines, i) + c] == lines[i][c]
  {
    var n := |lines|;
    JoinLength(lines);
    if n >= 2 {
      var init := lines[..n - 1];
      JoinLength(init);
      PrefixLineStart(lines, n - 1, n - 2);
      if i < n - 1 {
        JoinAt(init, i, c);
        PrefixLineStart(lines, n - 1, i);
      }
    }
  }

  /** Every line but the last is followed by one '\n' in the joined text. */
  lemma {:induction false} JoinSeparator(lines: Lines, i: nat)
    requires i + 1 < |lines|
    ensures LineEnd(lines, i) < |Join(lines)|
    ensures Join(lines)[LineEnd(lines, i)] == '\n'
  {
    var n := |lines|;
    var init := lines[..n - 1];
    JoinLength(lines);
    JoinLength(init);
    PrefixLineStart(lines, n - 1, n - 2);
    PrefixLineStart(lines, n - 1, i);
    if i < n - 2 {
      JoinSeparator(init, i);
    }
  }

  /** The flagged text at flat offset b is the slice of line `row` that a
      single-line range at (row, col) covers. */
  lemma {:induction false} JoinSlice(lines: Lines, row: nat, col: nat, len: nat)
    requires row < |lines| && col + len <= |lines[row]|
    ensures LineStart(lines, row) + col + len <= |Join(lines)|
    ensures Join(lines)[LineStart(lines, row) + col .. LineStart(lines, row) + col + len]
         == lines[row][col .. col + len]
  {
    var b := LineStart(lines, row) + col;
    JoinLength(lines);
    if row < |lines| - 1 {
      LineStartMonotone(lines, row, |lines| - 1);
    }
    var flat := Join(lines)[b .. b + len];
    var word := lines[row][col .. col + len];
    forall c | 0 <= c < len ensures flat[c] == word[c] {
      JoinAt(lines, row, col + c);
    }
  }

  /** Rewriting one line rewrites exactly that line's span of the joined
      text. */
  lemma {:induction false} JoinUpdate(lines: Lines, i: nat, line: seq<char>)
    requires i < |lines|
    ensures LineStart(lines, i) <= LineEnd(lines, i) <= |Join(lines)|
    ensures Join(lines[i := line])
         == Join(lines)[..LineStart(lines, i)] + line + Join(lines)[LineEnd(lines, i)..]
    decreases |lines|, 1
  {
    var n := |lines|;
    JoinLength(lines);
    if i < n - 1 {
      LineStartMonotone(lines, i, n - 1);
    }
    if n == 1 {
      assert Join(lines)[..LineStart(lines, i)] == [] && Join(lines)[LineEnd(lines, i)..] == [];
    } else if i == n - 1 {
      JoinUpdateLast(lines, line);
    } else {
      JoinUpdateInit(lines, i, line);
    }
  }

  /** The joined text of two or more lines ends with a separator and the
      last line. */
  lemma JoinSnoc(lines: Lines)
    requires |lines| >= 2
    ensures Join(lines) == Join(lines[..|lines| - 1]) + ['\n'] + lines[|lines| - 1]
  {
  }

  lemma JoinUpdateLast(lines: Lines, line: seq<char>)
    requires |lines| >= 2
    ensures LineEnd(lines, |lines| - 1) == |Join(lines)|
    ensures Join(lines[|lines| - 1 := line]) == Join(lines)[..LineStart(lines, |lines| - 1)] + line
  {
    var n := |lines|;
    var init := lines[..n - 1];
    var updated := lines[n - 1 := line];
    var j := Join(lines);
    JoinLength(init);
    PrefixLineStart(lines, n - 1, n - 2);
    JoinSnoc(lines);
    JoinSnoc(updated);
    assert updated[..n - 1] == init;
    assert j[..LineStart(lines, n - 1)] == Join(init) + ['\n'];
  }

  lemma {:induction false} JoinUpdateInit(lines: Lines, i: nat, line: seq<char>)
    requires i < |lines| - 1
    ensures LineEnd(lines, i) <= |Join(lines)|
    ensures Join(lines[i := line])
         == Join(lines)[..LineStart(lines, i)] + line + Join(lines)[LineEnd(lines, i)..]
    decreases |lines|, 0
  {
    var n := |lines|;
    var init := lines[..n - 1];
    var updated := lines[i := line];
    var ji := Join(init);
    var tail := ['\n'] + lines[n - 1];
    JoinUpdate(init, i, line);
    PrefixLineStart(lines, n - 1, i);
    JoinSnoc(lines);
    JoinSnoc(updated);
    assert updated[..n - 1] == init[i := line];
    var s, e := LineStart(lines, i), LineEnd(lines, i);
    Regroup3(ji, ['\n'], lines[n - 1]);
    TakeConcat(ji, tail, s);
    DropConcat(ji, tail, e);
    Regroup3(ji[..s] + line, ji[e..], tail);
    Regroup3(Join(init[i := line]), ['\n'], lines[n - 1]);
  }

  lemma Regroup3<T>(a: seq<T>, b: seq<T>, c: seq<T>)
    ensures a + b + c == a + (b + c)
  {
  }

  lemma TakeConcat<T>(a: seq<T>, b: seq<T>, k: nat)
    requires k <= |a|
    ensures (a + b)[..k] == a[..k]
  {
  }

  lemma DropConcat<T>(a: seq<T>, b: seq<T>, k: nat)
    requires k <= |a|
    ensures (a + b)[k..] == a[k..] + b
  {
  }

  /** Splicing a word into one line splices it into the joined text at the
      same flat offset. */
  lemma {:induction false} JoinSplice(lines: Lines, row: nat, col: nat, len: nat, word: seq<char>, b: nat)
    requires row < |lines| && col + len <= |lines[row]|
    requires b == LineStart(lines, row) + col
    ensures b + len <= |Join(lines)|
    ensures Join(lines[row := lines[row][..col] + word + lines[row][col + len..]])
         == Join(lines)[..b] + word + Join(lines)[b + len..]
  {
    var line := lines[row];
    var spliced := line[..col] + word + line[col + len..];
    var j := Join(lines);
    var s := LineStart(lines, row);
    var e := LineEnd(lines, row);
    var updated := Join(lines[row := spliced]);
    JoinUpdate(lines, row, spliced);
    assert updated == j[..s] + spliced + j[e..];
    JoinLine(lines, row);
    SpliceParts(j, s, e, line, col, len);
    var head, rest := j[..s + col], j[s + col + len..];
    assert head == j[..s] + line[..col];
    assert rest == line[col + len..] + j[e..];
    Regroup(j[..s], line[..col], word, line[col + len..], j[e..]);
    assert updated == head + word + rest;
  }

  lemma Regroup<T>(a: seq<T>, b: seq<T>, c: seq<T>, d: seq<T>, e: seq<T>)
    ensures a + (b + c + d) + e == (a + b) + c + (d + e)
  {
  }

  /** Line `row` occupies [LineStart(row), LineEnd(row)) of the joined text. */
  lemma {:induction false} JoinLine(lines: Lines, row: nat)
    requires row < |lines|
    ensures LineEnd(lines, row) <= |Join(lines)|
    ensures Join(lines)[LineStart(lines, row) .. LineEnd(lines, row)] == lines[row]
  {
    JoinSlice(lines, row, 0, |lines[row]|);
    assert lines[row][0 .. |lines[row]|] == lines[row];
  }

  /** Where a line sits inside a text, the text before and after a slice of
      the line extends the line's own prefix and suffix. */
  lemma {:induction false} SpliceParts(j: seq<char>, s: nat, e: nat, line: seq<char>, col: nat, len: nat)
    requires s <= e <= |j| && j[s .. e] == line && col + len <= |line|
    ensures j[..s + col] == j[..s] + line[..col]
    ensures j[s + col + len..] == line[col + len..] + j[e..]
  {
    assert j[..s + col] == j[..s] + j[s .. s + col];
    assert j[s + col + len..] == j[s + col + len .. e] + j[e..];
  }

  // ---------------------------------------------------------------------
  // The ranges getColRow tests

  /** The result after k lines is the LAST line among them whose range holds
      begin, and None exactly when none does. */
  lemma {:induction false} LastMatchIsLast(lines: Lines, begin: int, k: nat)
    requires k <= |lines|
    ensures LastMatch(lines, begin, k).None? <==>
              forall j :: 0 <= j < k ==> !Matches(lines, j, begin)
    ensures LastMatch(lines, begin, k).Some? ==>
              var p := LastMatch(lines, begin, k).value;
              && p.row < k
              && Matches(lines, p.row, begin)
              && p.col == begin - LineStart(lines, p.row)
              && forall j :: p.row < j < k ==> !Matches(lines, j, begin)
  {
    if k > 0 && !Matches(lines, k - 1, begin) {
      LastMatchIsLast(lines, begin, k - 1);
    }
  }

  /** The ranges of lines 0 .. k - 1 together cover exactly [0, LineEnd(k - 1)]:
      no offset in between is lost, one past the end is not found. */
  lemma {:induction false} RangesCover(lines: Lines, begin: int, k: nat)
    requires 1 <= k <= |lines|
    ensures (exists j :: 0 <= j < k && Matches(lines, j, begin)) <==>
              0 <= begin <= LineEnd(lines, k - 1)
  {
    if k > 1 {
      RangesCover(lines, begin, k - 1);
      LineStartMonotone(lines, k - 2, k - 1);
      if 0 <= begin <= LineEnd(lines, k - 1) {
        if begin <= LineEnd(lines, k - 2) {
          var j :| 0 <= j < k - 1 && Matches(lines, j, begin);
          assert 0 <= j < k && Matches(lines, j, begin);
        } else {
          assert Matches(lines, k - 1, begin);
        }
      }
    } else {
      if 0 <= begin <= LineEnd(lines, 0) {
        assert Matches(lines, 0, begin);
      }
    }
  }

  /** getColRow finds no position exactly when the buffer has no lines, the
      offset is negative, or it is past the end of the joined text. */
  lemma {:induction false} ColRowNone(lines: Lines, begin: int)
    ensures ColRowOf(lines, begin).None? <==>
              (|lines| == 0 || begin < 0 || begin > FlatLength(lines))
  {
    LastMatchIsLast(lines, begin, |lines|);
    if |lines| > 0 {
      RangesCover(lines, begin, |lines|);
    }
  }

  /** Away from offset 0 after an empty first line, no two lines' ranges
      share the offset, so at most one line matches it. */
  lemma {:induction false} RangesDisjoint(lines: Lines, begin: int, i: nat, j: nat)
    requires i < j < |lines|
    requires |lines[0]| > 0 || begin > 0
    ensures !(Matches(lines, i, begin) && Matches(lines, j, begin))
  {
    LineStartMonotone(lines, i, j);
    LineStartMonotone(lines, 0, j);
  }

  /** Round trip, offset to position: unless line 0 is empty and the offset
      is 0, a resolved position lies within its line (the end of the line
      included) and its row's start plus its column gives the offset back. */
  lemma {:induction false} ColRowInLine(lines: Lines, begin: int)
    requires |lines| > 0 && (|lines[0]| > 0 || begin > 0)
    ensures ColRowOf(lines, begin).Some? ==>
              var p := ColRowOf(lines, begin).value;
              && p.row < |lines|
              && 0 <= p.col <= |lines[p.row]|
              && LineStart(lines, p.row) + p.col == begin
  {
    LastMatchIsLast(lines, begin, |lines|);
    var r := ColRowOf(lines, begin);
    if r.Some? && r.value.row > 0 {
      LineStartMonotone(lines, 0, r.value.row);
    }
  }

  /** The flat text at a resolved offset is the text at its position. */
  lemma {:induction false} PositionSlice(lines: Lines, begin: int, len: nat, p: Pos)
    requires |lines| > 0 && (|lines[0]| > 0 || begin > 0)
    requires ColRowOf(lines, begin) == Some(p)
    requires p.col + len <= |lines[p.row]|
    ensures 0 <= p.col && 0 <= begin <= begin + len <= |Join(lines)|
    ensures Join(lines)[begin .. begin + len] == lines[p.row][p.col .. p.col + len]
  {
    ColRowInLine(lines, begin);
    assert 0 <= p.col && LineStart(lines, p.row) + p.col == begin;
    var col: nat := p.col;
    JoinSlice(lines, p.row, col, len);
  }

  /** Splicing at a resolved position splices the flat text at the offset. */
  lemma {:induction false} PositionSplice(lines: Lines, begin: int, len: nat, word: seq<char>, p: Pos)
    requires |lines| > 0 && (|lines[0]| > 0 || begin > 0)
    requires ColRowOf(lines, begin) == Some(p)
    requires p.col + len <= |lines[p.row]|
    ensures 0 <= p.col && 0 <= begin <= begin + len <= |Join(lines)|
    ensures Join(lines[p.row := lines[p.row][..p.col] + word + lines[p.row][p.col + len..]])
         == Join(lines)[..begin] + word + Join(lines)[begin + len..]
  {
    ColRowInLine(lines, begin);
    JoinSplice(lines, p.row, p.col, len, word, begin);
  }

  /** Round trip, position to offset: except (row 0, col 0) after an empty
      first line, every position within a line is what its own flat offset
      resolves to. */
  lemma {:induction false} ColRowOfPosition(lines: Lines, p: Pos)
    requires |lines| > 0 && (|lines[0]| > 0 || p != Pos(0, 0))
    requires p.row < |lines| && 0 <= p.col <= |lines[p.row]|
    ensures ColRowOf(lines, LineStart(lines, p.row) + p.col) == Some(p)
  {
    var b := LineStart(lines, p.row) + p.col;
    if p.row > 0 {
      LineStartMonotone(lines, 0, p.row);
    }
    assert Matches(lines, p.row, b);
    LastMatchIsLast(lines, b, |lines|);
    var r := ColRowOf(lines, b);
    if r.value.row != p.row {
      assert p.row < r.value.row;
      RangesDisjoint(lines, b, p.row, r.value.row);
    }
  }

  /** The `ttl === 0` quirk: with an empty first line and a second line,
      offset 0 matches line 0 and then line 1, and the later match wins with
      column -1. */
  lemma {:induction false} EmptyFirstLineQuirk(lines: Lines)
    requires |lines| >= 2 && lines[0] == []
    ensures Matches(lines, 0, 0) && Matches(lines, 1, 0)
    ensures ColRowOf(lines, 0) == Some(Pos(-1, 1))
  {
    assert LineStart(lines, 1) == 1;
    assert Matches(lines, 1, 0);
    LastMatchIsLast(lines, 0, |lines|);
  }

  /** For the lines "ab" and "cd" (flat text "ab\ncd"), the separator at flat
      offset 2 belongs to neither line's content: 2 is the end of line 0 and
      3 the start of line 1. */
  lemma TwoLineExample()
    ensures ColRowOf(["ab", "cd"], 2) == Some(Pos(2, 0))
    ensures ColRowOf(["ab", "cd"], 3) == Some(Pos(0, 1))
    ensures ColRowOf(["ab", "cd"], 5) == Some(Pos(2, 1))
    ensures ColRowOf(["ab", "cd"], 6) == None
  {
    var lines: Lines := ["ab", "cd"];
    assert LineStart(lines, 1) == 3;
  }
}
