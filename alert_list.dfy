/** Normalising the checker's alert list: formatAlerts drops hidden alerts
    and keeps the first alert per explanation; sortAlerts orders the list in
    place by begin. */
module AlertList {
  import opened Types

  // ---------------------------------------------------------------------
  // formatAlerts

  /** `alerts.filter((alert) => alert.hidden !== true)`. */
  function WithoutHidden(alerts: seq<Alert>): (r: seq<Alert>)
    ensures |r| <= |alerts|
    ensures forall i :: 0 <= i < |r| ==> !IsHidden(r[i]) && r[i] in alerts
    ensures forall i :: 0 <= i < |alerts| && !IsHidden(alerts[i]) ==> alerts[i] in r
  {
    if alerts == [] then []
    else
      var last := alerts[|alerts| - 1];
      WithoutHidden(alerts[..|alerts| - 1]) + (if IsHidden(last) then [] else [last])
  }

  /** The filter keeps every visible alert as often as the input has it, and
      no hidden one. */
  lemma {:induction false} WithoutHiddenCounts(alerts: seq<Alert>)
    ensures forall x :: multiset(WithoutHidden(alerts))[x] == if IsHidden(x) then 0 else multiset(alerts)[x]
  {
    if alerts != [] {
      var init, last := alerts[..|alerts| - 1], alerts[|alerts| - 1];
      assert alerts == init + [last];
      WithoutHiddenCounts(init);
      assert WithoutHidden(alerts) == WithoutHidden(init) + (if IsHidden(last) then [] else [last]);
    }
  }

  /** `acc.find((item) => item.explanation === explanation)`: the first alert
      of acc with that explanation. Two absent explanations are equal, as
      `undefined === undefined` is. */
  function Find(acc: seq<Alert>, explanation: Option<string>): (r: Option<Alert>)
    ensures r.None? <==> forall k :: 0 <= k < |acc| ==> acc[k].explanation != explanation
    ensures r.Some? ==> exists k :: 0 <= k < |acc| && acc[k] == r.value
                          && acc[k].explanation == explanation
                          && forall j :: 0 <= j < k ==> acc[j].explanation != explanation
  {
    if acc == [] then None
    else if acc[0].explanation == explanation then Some(acc[0])
    else
      var r := Find(acc[1..], explanation);
      if r.Some? then
        var k :| 0 <= k < |acc[1..]| && acc[1..][k] == r.value
                 && acc[1..][k].explanation == explanation
                 && forall j :: 0 <= j < k ==> acc[1..][j].explanation != explanation;
        assert acc[k + 1] == r.value;
        r
      else r
  }

  /** The reducer: append current unless an alert with its explanation is
      already kept. */
  function DedupStep(acc: seq<Alert>, current: Alert): (r: seq<Alert>)
    ensures r == acc || r == acc + [current]
    ensures r == acc + [current] <==> forall k :: 0 <= k < |acc| ==> acc[k].explanation != current.explanation
  {
    if Find(acc, current.explanation).None? then acc + [current] else acc
  }

  /** `reduce(DedupStep, acc)` over rest, left to right. */
  function Dedup(acc: seq<Alert>, rest: seq<Alert>): (r: seq<Alert>)
    ensures acc <= r && |r| <= |acc| + |rest|
    decreases |rest|
  {
    if rest == [] then acc else Dedup(DedupStep(acc, rest[0]), rest[1..])
  }

  /** formatAlerts. */
  function FormatAlerts(alerts: seq<Alert>): (r: seq<Alert>)
    ensures |r| <= |alerts|
  {
    Dedup([], WithoutHidden(alerts))
  }

  // A reference definition: keep position k of the visible alerts when no
  // earlier visible alert has the same explanation.

  predicate IsFirst(w: seq<Alert>, k: nat)
    requires k < |w|
  {
    forall j :: 0 <= j < k ==> w[j].explanation != w[k].explanation
  }

  /** Some alert of s carries explanation e. */
  predicate HasExplanation(s: seq<Alert>, e: Option<string>) {
    exists i :: 0 <= i < |s| && s[i].explanation == e
  }

  /** x is one of the first n alerts of w and none before it has its
      explanation. */
  predicate IsFirstAmong(w: seq<Alert>, n: nat, x: Alert)
    requires n <= |w|
  {
    exists k :: 0 <= k < n && w[k] == x && IsFirst(w, k)
  }

  function FirstOccurrences(w: seq<Alert>, n: nat): seq<Alert>
    requires n <= |w|
  {
    if n == 0 then []
    else FirstOccurrences(w, n - 1) + (if IsFirst(w, n - 1) then [w[n - 1]] else [])
  }

  /** The explanations kept after n alerts are those of the first n alerts,
      each exactly once and each carried by its first alert. */
  lemma FirstOccurrencesFacts(w: seq<Alert>, n: nat)
    requires n <= |w|
    ensures forall e :: HasExplanation(FirstOccurrences(w, n), e) <==> HasExplanation(w[..n], e)
    ensures forall i, i' :: 0 <= i < i' < |FirstOccurrences(w, n)| ==>
              FirstOccurrences(w, n)[i].explanation != FirstOccurrences(w, n)[i'].explanation
    ensures forall i :: 0 <= i < |FirstOccurrences(w, n)| ==> IsFirstAmong(w, n, FirstOccurrences(w, n)[i])
  {
    FirstOccurrencesExplanations(w, n);
    FirstOccurrencesDistinct(w, n);
    FirstOccurrencesAreFirst(w, n);
  }

  lemma {:induction false} FirstOccurrencesAreFirst(w: seq<Alert>, n: nat)
    requires n <= |w|
    ensures forall i :: 0 <= i < |FirstOccurrences(w, n)| ==> IsFirstAmong(w, n, FirstOccurrences(w, n)[i])
  {
    if n > 0 {
      FirstOccurrencesAreFirst(w, n - 1);
      var prev := FirstOccurrences(w, n - 1);
      var cur := FirstOccurrences(w, n);
      forall i | 0 <= i < |cur| ensures IsFirstAmong(w, n, cur[i]) {
        if i < |prev| {
          assert cur[i] == prev[i];
          var k :| 0 <= k < n - 1 && w[k] == prev[i] && IsFirst(w, k);
        } else {
          assert cur[i] == w[n - 1] && IsFirst(w, n - 1);
        }
      }
    }
  }

  lemma {:induction false} FirstOccurrencesDistinct(w: seq<Alert>, n: nat)
    requires n <= |w|
    ensures forall i, i' :: 0 <= i < i' < |FirstOccurrences(w, n)| ==>
              FirstOccurrences(w, n)[i].explanation != FirstOccurrences(w, n)[i'].explanation
  {
    if n > 0 {
      FirstOccurrencesDistinct(w, n - 1);
      var prev := FirstOccurrences(w, n - 1);
      if IsFirst(w, n - 1) {
        FirstOccurrencesAreFirst(w, n - 1);
        forall i | 0 <= i < |prev| ensures prev[i].explanation != w[n - 1].explanation {
          var k :| 0 <= k < n - 1 && w[k] == prev[i] && IsFirst(w, k);
        }
        assert FirstOccurrences(w, n) == prev + [w[n - 1]];
      }
    }
  }

  lemma {:induction false} FirstOccurrencesExplanations(w: seq<Alert>, n: nat)
    requires n <= |w|
    ensures forall e :: HasExplanation(FirstOccurrences(w, n), e) <==> HasExplanation(w[..n], e)
  {
    if n > 0 {
      FirstOccurrencesExplanations(w, n - 1);
      var prev := FirstOccurrences(w, n - 1);
      var x := w[n - 1];
      assert w[..n] == w[..n - 1] + [x];
      forall e ensures HasExplanation(w[..n], e) <==> HasExplanation(w[..n - 1], e) || x.explanation == e {
        AppendExplanation(w[..n - 1], x, e);
      }
      if IsFirst(w, n - 1) {
        assert FirstOccurrences(w, n) == prev + [x];
        forall e ensures HasExplanation(prev + [x], e) <==> HasExplanation(prev, e) || x.explanation == e {
          AppendExplanation(prev, x, e);
        }
      } else {
        var j :| 0 <= j < n - 1 && w[j].explanation == x.explanation;
        assert w[..n - 1][j].explanation == x.explanation;
        assert HasExplanation(w[..n - 1], x.explanation);
        assert FirstOccurrences(w, n) == prev;
      }
    }
  }

  lemma {:induction false} AppendExplanation(s: seq<Alert>, x: Alert, e: Option<string>)
    ensures HasExplanation(s + [x], e) <==> HasExplanation(s, e) || x.explanation == e
  {
    var t := s + [x];
    if HasExplanation(t, e) {
      var i :| 0 <= i < |t| && t[i].explanation == e;
      if i < |s| {
        assert s[i].explanation == e;
      }
    }
    if HasExplanation(s, e) {
      var i :| 0 <= i < |s| && s[i].explanation == e;
      assert t[i].explanation == e;
    }
    if x.explanation == e {
      assert t[|s|].explanation == e;
    }
  }

  /** The reducer run over the rest of the visible alerts completes the
      reference definition. */
  lemma {:induction false} DedupCompletes(w: seq<Alert>, n: nat)
    requires n <= |w|
    ensures Dedup(FirstOccurrences(w, n), w[n..]) == FirstOccurrences(w, |w|)
    decreases |w| - n
  {
    if n < |w| {
      var acc := FirstOccurrences(w, n);
      FirstOccurrencesFacts(w, n);
      var e := w[n].explanation;
      if Find(acc, e).None? {
        assert !HasExplanation(acc, e);
        forall j | 0 <= j < n ensures w[j].explanation != e {
          assert w[..n][j] == w[j];
        }
        assert IsFirst(w, n);
      } else {
        assert HasExplanation(acc, e);
        var j :| 0 <= j < n && w[..n][j].explanation == e;
        assert w[j].explanation == e;
        assert !IsFirst(w, n);
      }
      assert DedupStep(acc, w[n]) == FirstOccurrences(w, n + 1);
      assert w[n..][1..] == w[n + 1..];
      DedupCompletes(w, n + 1);
    }
  }

  /** formatAlerts keeps, in input order, exactly the visible alerts that no
      earlier visible alert shares an explanation with. */
  lemma {:induction false} FormatAlertsIsFirstOccurrences(alerts: seq<Alert>)
    ensures FormatAlerts(alerts) == FirstOccurrences(WithoutHidden(alerts), |WithoutHidden(alerts)|)
  {
    var w := WithoutHidden(alerts);
    DedupCompletes(w, 0);
    assert w[0..] == w;
  }

  // ---------------------------------------------------------------------
  // Order-preserving subsequences

  /** s is t with some elements left out, the rest in the same order. */
  predicate IsSubsequence<T(==)>(s: seq<T>, t: seq<T>)
    decreases |t|
  {
    if t == [] then s == []
    else
      || (s != [] && s[|s| - 1] == t[|t| - 1] && IsSubsequence(s[..|s| - 1], t[..|t| - 1]))
      || IsSubsequence(s, t[..|t| - 1])
  }

  lemma {:induction false} SubsequenceTransitive<T>(r: seq<T>, s: seq<T>, t: seq<T>)
    requires IsSubsequence(r, s) && IsSubsequence(s, t)
    ensures IsSubsequence(r, t)
    decreases |t|
  {
    if t == [] {
      assert s == [];
    } else if IsSubsequence(s, t[..|t| - 1]) {
      SubsequenceTransitive(r, s, t[..|t| - 1]);
    } else {
      assert s != [] && s[|s| - 1] == t[|t| - 1] && IsSubsequence(s[..|s| - 1], t[..|t| - 1]);
      if r != [] && r[|r| - 1] == s[|s| - 1] && IsSubsequence(r[..|r| - 1], s[..|s| - 1]) {
        SubsequenceTransitive(r[..|r| - 1], s[..|s| - 1], t[..|t| - 1]);
      } else {
        assert IsSubsequence(r, s[..|s| - 1]);
        SubsequenceTransitive(r, s[..|s| - 1], t[..|t| - 1]);
      }
    }
  }

  lemma {:induction false} WithoutHiddenIsSubsequence(alerts: seq<Alert>)
    ensures IsSubsequence(WithoutHidden(alerts), alerts)
  {
    if alerts != [] {
      var init := alerts[..|alerts| - 1];
      var last := alerts[|alerts| - 1];
      WithoutHiddenIsSubsequence(init);
      var w := WithoutHidden(alerts);
      if !IsHidden(last) {
        assert w == WithoutHidden(init) + [last];
        assert w[..|w| - 1] == WithoutHidden(init);
        assert IsSubsequence(w[..|w| - 1], alerts[..|alerts| - 1]);
      } else {
        assert w == WithoutHidden(init);
        assert IsSubsequence(w, alerts[..|alerts| - 1]);
      }
    }
  }

  lemma {:induction false} FirstOccurrencesIsSubsequence(w: seq<Alert>, n: nat)
    requires n <= |w|
    ensures IsSubsequence(FirstOccurrences(w, n), w[..n])
  {
    if n > 0 {
      FirstOccurrencesIsSubsequence(w, n - 1);
      var cur := FirstOccurrences(w, n);
      assert w[..n][..n - 1] == w[..n - 1];
      var t := w[..n];
      if IsFirst(w, n - 1) {
        assert cur == FirstOccurrences(w, n - 1) + [w[n - 1]];
        assert cur[..|cur| - 1] == FirstOccurrences(w, n - 1);
        assert cur[|cur| - 1] == t[|t| - 1];
        assert IsSubsequence(cur[..|cur| - 1], t[..|t| - 1]);
      } else {
        assert cur == FirstOccurrences(w, n - 1);
        assert IsSubsequence(cur, t[..|t| - 1]);
      }
    }
  }

  // ---------------------------------------------------------------------
  // What formatAlerts promises

  /** The result keeps the input's order: it is the input with some alerts
      left out. */
  lemma {:induction false} FormatAlertsIsSubsequence(alerts: seq<Alert>)
    ensures IsSubsequence(FormatAlerts(alerts), alerts)
  {
    var w := WithoutHidden(alerts);
    FormatAlertsIsFirstOccurrences(alerts);
    FirstOccurrencesIsSubsequence(w, |w|);
    assert w[..|w|] == w;
    WithoutHiddenIsSubsequence(alerts);
    SubsequenceTransitive(FormatAlerts(alerts), w, alerts);
  }

  /** No alert whose hidden is strictly true survives. */
  lemma {:induction false} FormatAlertsNoHidden(alerts: seq<Alert>)
    ensures forall i :: 0 <= i < |FormatAlerts(alerts)| ==> !IsHidden(FormatAlerts(alerts)[i])
  {
    var w := WithoutHidden(alerts);
    var r := FormatAlerts(alerts);
    FormatAlertsIsFirstOccurrences(alerts);
    FirstOccurrencesFacts(w, |w|);
    forall i | 0 <= i < |r| ensures !IsHidden(r[i]) {
      assert IsFirstAmong(w, |w|, r[i]);
    }
  }

  /** Explanations in the result are pairwise distinct (an absent
      explanation counts as one value). */
  lemma {:induction false} FormatAlertsDistinct(alerts: seq<Alert>)
    ensures forall i, j :: 0 <= i < j < |FormatAlerts(alerts)| ==>
              FormatAlerts(alerts)[i].explanation != FormatAlerts(alerts)[j].explanation
  {
    var w := WithoutHidden(alerts);
    FormatAlertsIsFirstOccurrences(alerts);
    FirstOccurrencesFacts(w, |w|);
  }

  /** Every survivor is the first visible alert with its explanation, and
      every explanation among the visible alerts survives. */
  lemma {:induction false} FormatAlertsFirstPerExplanation(alerts: seq<Alert>)
    ensures forall i :: 0 <= i < |FormatAlerts(alerts)| ==>
              IsFirstAmong(WithoutHidden(alerts), |WithoutHidden(alerts)|, FormatAlerts(alerts)[i])
    ensures forall e :: HasExplanation(FormatAlerts(alerts), e) <==> HasExplanation(WithoutHidden(alerts), e)
  {
    var w := WithoutHidden(alerts);
    FormatAlertsIsFirstOccurrences(alerts);
    FirstOccurrencesFacts(w, |w|);
    assert w[..|w|] == w;
  }

  // ---------------------------------------------------------------------
  // sortAlerts

  /** Non-decreasing by begin, the order the comparator `a.begin - b.begin`
      asks for. */
  predicate SortedByBegin(s: seq<Alert>) {
    forall i, j :: 0 <= i < j < |s| ==> s[i].begin <= s[j].begin
  }

  /** The alerts of s with a given begin, in the order s has them. */
  function WithBegin(s: seq<Alert>, b: int): seq<Alert>
  {
    if s == [] then []
    else WithBegin(s[..|s| - 1], b) + (if s[|s| - 1].begin == b then [s[|s| - 1]] else [])
  }

  /** Puts x after every element of t whose begin is at most x's. */
  function Insert(t: seq<Alert>, x: Alert): seq<Alert>
  {
    if t == [] || t[|t| - 1].begin <= x.begin then t + [x]
    else Insert(t[..|t| - 1], x) + [t[|t| - 1]]
  }

  /** The order a stable sort by begin produces: insertion from the left. */
  function SortByBegin(s: seq<Alert>): seq<Alert>
  {
    if s == [] then [] else Insert(SortByBegin(s[..|s| - 1]), s[|s| - 1])
  }

  lemma {:induction false} InsertPermutes(t: seq<Alert>, x: Alert)
    ensures multiset(Insert(t, x)) == multiset(t) + multiset{x}
  {
    if t != [] && t[|t| - 1].begin > x.begin {
      var init := t[..|t| - 1];
      InsertPermutes(init, x);
      MultisetSnoc(t);
      assert Insert(t, x) == Insert(init, x) + [t[|t| - 1]];
    }
  }

  lemma MultisetSnoc(s: seq<Alert>)
    requires s != []
    ensures multiset(s) == multiset(s[..|s| - 1]) + multiset{s[|s| - 1]}
  {
    assert s == s[..|s| - 1] + [s[|s| - 1]];
  }

  lemma {:induction false} InsertSorted(t: seq<Alert>, x: Alert)
    requires SortedByBegin(t)
    ensures SortedByBegin(Insert(t, x))
  {
    if t != [] && t[|t| - 1].begin > x.begin {
      var init := t[..|t| - 1];
      var last := t[|t| - 1];
      var ins := Insert(init, x);
      assert SortedByBegin(init);
      InsertSorted(init, x);
      InsertBelow(init, x, last.begin);
      assert Insert(t, x) == ins + [last];
    }
  }

  /** Insertion keeps every begin at most a bound that x and t respect. */
  lemma {:induction false} InsertBelow(t: seq<Alert>, x: Alert, bound: int)
    requires x.begin <= bound
    requires forall i :: 0 <= i < |t| ==> t[i].begin <= bound
    ensures forall i :: 0 <= i < |Insert(t, x)| ==> Insert(t, x)[i].begin <= bound
  {
    if t != [] && t[|t| - 1].begin > x.begin {
      var init := t[..|t| - 1];
      InsertBelow(init, x, bound);
      assert Insert(t, x) == Insert(init, x) + [t[|t| - 1]];
    } else {
      assert Insert(t, x) == t + [x];
    }
  }

  lemma {:induction false} WithBeginAppend(s: seq<Alert>, y: Alert, b: int)
    ensures WithBegin(s + [y], b) == WithBegin(s, b) + (if y.begin == b then [y] else [])
  {
    assert (s + [y])[..|s + [y]| - 1] == s;
  }

  lemma {:induction false} InsertStable(t: seq<Alert>, x: Alert, b: int)
    ensures WithBegin(Insert(t, x), b) == WithBegin(t, b) + (if x.begin == b then [x] else [])
  {
    if t != [] && t[|t| - 1].begin > x.begin {
      var init := t[..|t| - 1];
      var last := t[|t| - 1];
      var ins := Insert(init, x);
      assert Insert(t, x) == ins + [last];
      InsertStable(init, x, b);
      WithBeginAppend(ins, last, b);
      var before := WithBegin(init, b);
      assert WithBegin(t, b) == before + (if last.begin == b then [last] else []);
      if x.begin == b {
        assert WithBegin(Insert(t, x), b) == before + [x];
      } else {
        assert WithBegin(ins, b) == before;
      }
    } else {
      assert Insert(t, x) == t + [x];
      WithBeginAppend(t, x, b);
    }
  }

  /** The sorted order is sorted, a permutation of the input, and stable:
      alerts with equal begin keep their relative order. */
  lemma SortByBeginFacts(s: seq<Alert>)
    ensures SortedByBegin(SortByBegin(s))
    ensures multiset(SortByBegin(s)) == multiset(s)
    ensures forall b :: WithBegin(SortByBegin(s), b) == WithBegin(s, b)
  {
    SortByBeginSorted(s);
    SortByBeginPermutes(s);
    forall b ensures WithBegin(SortByBegin(s), b) == WithBegin(s, b) {
      SortByBeginStable(s, b);
    }
  }

  lemma {:induction false} SortByBeginSorted(s: seq<Alert>)
    ensures SortedByBegin(SortByBegin(s))
  {
    if s != [] {
      SortByBeginSorted(s[..|s| - 1]);
      InsertSorted(SortByBegin(s[..|s| - 1]), s[|s| - 1]);
    }
  }

  lemma {:induction false} SortByBeginPermutes(s: seq<Alert>)
    ensures multiset(SortByBegin(s)) == multiset(s)
  {
    if s != [] {
      var init := s[..|s| - 1];
      SortByBeginPermutes(init);
      InsertPermutes(SortByBegin(init), s[|s| - 1]);
      MultisetSnoc(s);
    }
  }

  lemma {:induction false} SortByBeginStable(s: seq<Alert>, b: int)
    ensures WithBegin(SortByBegin(s), b) == WithBegin(s, b)
  {
    if s != [] {
      var init := s[..|s| - 1];
      var last := s[|s| - 1];
      SortByBeginStable(init, b);
      InsertStable(SortByBegin(init), last, b);
    }
  }

  /** Insertion into a sorted prefix at the first position whose element has
      a larger begin than every element after it. */
  lemma {:induction false} InsertAt(t: seq<Alert>, x: Alert, j: nat)
    requires j <= |t|
    requires j == 0 || t[j - 1].begin <= x.begin
    requires forall k :: j <= k < |t| ==> t[k].begin > x.begin
    ensures Insert(t, x) == t[..j] + [x] + t[j..]
    decreases |t|
  {
    if j < |t| {
      var init := t[..|t| - 1];
      var last := t[|t| - 1];
      assert Insert(t, x) == Insert(init, x) + [last];
      InsertAt(init, x, j);
      assert t[..j] == init[..j];
      assert t[j..] == init[j..] + [last] by {
        assert t == init + [last];
        forall k | 0 <= k < |t| - j ensures t[j..][k] == (init[j..] + [last])[k] {
          if j + k < |init| {
            assert t[j + k] == init[j + k];
          }
        }
      }
    } else {
      assert t[..j] == t && t[j..] == [];
    }
  }

  /** sortAlerts: sorts the array in place and returns the same array. */
  method SortAlerts(a: array<Alert>) returns (r: array<Alert>)
    modifies a
    ensures r == a
    ensures a[..] == SortByBegin(old(a[..]))
  {
    ghost var input := a[..];
    var i := 0;
    while i < a.Length
      invariant 0 <= i <= a.Length
      invariant a[..i] == SortByBegin(input[..i])
      invariant a[i..] == input[i..]
    {
      SortStep(input, i);
      InsertInPlace(a, i);
      i := i + 1;
    }
    assert input[..a.Length] == input;
    r := a;
  }

  /** Sorting one more element of the input inserts it into the sorted
      prefix. */
  lemma SortStep(input: seq<Alert>, i: nat)
    requires i < |input|
    ensures SortByBegin(input[..i + 1]) == Insert(SortByBegin(input[..i]), input[i])
  {
    assert input[..i + 1][..i] == input[..i];
  }

  /** One step of the sort: moves a[i] left past the elements of a[..i] with
      a larger begin. */
  method InsertInPlace(a: array<Alert>, i: nat)
    requires i < a.Length
    modifies a
    ensures a[..i + 1] == Insert(old(a[..i]), old(a[i]))
    ensures a[i + 1..] == old(a[i + 1..])
  {
    var x := a[i];
    ghost var t := a[..i];
    ghost var rest := a[i + 1..];
    var j := ShiftRight(a, i, x);
    a[j] := x;
    InsertAt(t, x, j);
    Shifted(a[..], t, x, j);
    assert a[i + 1..] == rest;
  }

  /** The loop of InsertInPlace: shifts the elements of a[..i] with a larger
      begin than x one place right and returns the gap left behind. */
  method ShiftRight(a: array<Alert>, i: nat, x: Alert) returns (j: nat)
    requires i < a.Length
    modifies a
    ensures j <= i
    ensures j == 0 || old(a[j - 1]).begin <= x.begin
    ensures forall k :: 0 <= k < j ==> a[k] == old(a[k])
    ensures forall k :: j < k <= i ==> a[k] == old(a[k - 1])
    ensures forall k :: j <= k < i ==> old(a[k]).begin > x.begin
    ensures forall k :: i < k < a.Length ==> a[k] == old(a[k])
  {
    j := i;
    while j > 0 && a[j - 1].begin > x.begin
      invariant 0 <= j <= i
      invariant forall k :: 0 <= k < j ==> a[k] == old(a[k])
      invariant forall k :: j < k <= i ==> a[k] == old(a[k - 1])
      invariant forall k :: j <= k < i ==> old(a[k]).begin > x.begin
      invariant forall k :: i < k < a.Length ==> a[k] == old(a[k])
    {
      a[j] := a[j - 1];
      j := j - 1;
    }
  }

  /** The array after InsertInPlace's loop, read as a sequence: t with x put
      at index j. */
  lemma {:induction false} Shifted(cur: seq<Alert>, t: seq<Alert>, x: Alert, j: nat)
    requires j <= |t| < |cur|
    requires cur[j] == x
    requires forall k :: 0 <= k < j ==> cur[k] == t[k]
    requires forall k :: j < k <= |t| ==> cur[k] == t[k - 1]
    ensures cur[..|t| + 1] == t[..j] + [x] + t[j..]
  {
    var r := t[..j] + [x] + t[j..];
    assert forall k :: 0 <= k <= |t| ==> cur[k] == r[k];
  }

  // ---------------------------------------------------------------------
  // formatAlerts, then sortAlerts, as the checker's results are presented

  function SampleAlert(explanation: string, begin: int): Alert
  {
    Alert(begin, begin + 1, "w", "w", Some(explanation), None, OtherCategory, [])
  }

  /** Deduplication works on the checker's order and sorting comes after:
      of two alerts explained "A" the one first returned (at 5) survives,
      although the other one (at 9) is not earlier in the text either, and
      "B" at 1 moves to the front. */
  lemma FormatThenSortExample()
    ensures SortByBegin(FormatAlerts([SampleAlert("A", 5), SampleAlert("B", 1), SampleAlert("A", 9)]))
         == [SampleAlert("B", 1), SampleAlert("A", 5)]
  {
    FormatExample();
    SortExample();
  }

  lemma FormatExample()
    ensures FormatAlerts([SampleAlert("A", 5), SampleAlert("B", 1), SampleAlert("A", 9)])
         == [SampleAlert("A", 5), SampleAlert("B", 1)]
  {
    VisibleExample();
    DedupExample();
  }

  lemma DedupExample()
    ensures Dedup([], [SampleAlert("A", 5), SampleAlert("B", 1), SampleAlert("A", 9)])
         == [SampleAlert("A", 5), SampleAlert("B", 1)]
  {
    var a5, b1, a9 := SampleAlert("A", 5), SampleAlert("B", 1), SampleAlert("A", 9);
    var input := [a5, b1, a9];
    DedupStepsExample();
    assert input[1..] == [b1, a9] && [b1, a9][1..] == [a9];
    assert Dedup([a5, b1], []) == [a5, b1];
    assert Dedup([a5, b1], [a9]) == [a5, b1];
    assert Dedup([a5], [b1, a9]) == [a5, b1];
  }

  lemma VisibleExample()
    ensures WithoutHidden([SampleAlert("A", 5), SampleAlert("B", 1), SampleAlert("A", 9)])
         == [SampleAlert("A", 5), SampleAlert("B", 1), SampleAlert("A", 9)]
  {
    var a5, b1, a9 := SampleAlert("A", 5), SampleAlert("B", 1), SampleAlert("A", 9);
    var input := [a5, b1, a9];
    assert input[..2] == [a5, b1] && [a5, b1][..1] == [a5] && [a5][..0] == [];
    assert WithoutHidden([a5]) == [a5];
    assert WithoutHidden([a5, b1]) == [a5, b1];
  }

  lemma DedupStepsExample()
    ensures DedupStep([], SampleAlert("A", 5)) == [SampleAlert("A", 5)]
    ensures DedupStep([SampleAlert("A", 5)], SampleAlert("B", 1)) == [SampleAlert("A", 5), SampleAlert("B", 1)]
    ensures DedupStep([SampleAlert("A", 5), SampleAlert("B", 1)], SampleAlert("A", 9))
         == [SampleAlert("A", 5), SampleAlert("B", 1)]
  {
    var a5, b1 := SampleAlert("A", 5), SampleAlert("B", 1);
    assert Find([a5], Some("B")) == None;
    assert Find([a5, b1], Some("A")) == Some(a5);
  }

  lemma SortExample()
    ensures SortByBegin([SampleAlert("A", 5), SampleAlert("B", 1)])
         == [SampleAlert("B", 1), SampleAlert("A", 5)]
  {
    var a5, b1 := SampleAlert("A", 5), SampleAlert("B", 1);
    assert [a5, b1][..1] == [a5];
    assert SortByBegin([a5]) == [a5];
    assert Insert([a5], b1) == [b1, a5];
  }
}
