/**
 Repeated text in instruction files (scripts/instruction_repeats.py): the maximal runs of
 `n`-word windows that a document shares with its sources.

 A document is its words with their line numbers; the hash of a window is taken as
 injective, so the index is keyed by the window itself.
 */
module RepeatedRuns {
  import opened Options
  import opened Seqs
  import opened Sorting

  datatype Word = Word(text: string, line: nat)
  datatype Source = Source(path: string, words: seq<string>)
  datatype Run = Run(line: nat, words: nat, source: string)

  type Window = seq<string>
  type Index = map<Window, string>

  function Texts(words: seq<Word>): (r: seq<string>)
    ensures |r| == |words|
  {
    seq(|words|, i requires 0 <= i < |words| => words[i].text)
  }

  /** How many windows of `n` words a text of `len` words has. */
  function Windows(len: nat, n: nat): nat
    requires n >= 1
  {
    if len < n then 0 else len - n + 1
  }

  function WindowAt(texts: seq<string>, n: nat, i: nat): Window
    requires n >= 1 && i < Windows(|texts|, n)
  {
    texts[i..i + n]
  }

  /** One of the first `upTo` windows of the source is `w`. */
  predicate HoldsEarly(s: Source, n: nat, w: Window, upTo: nat)
    requires n >= 1 && upTo <= Windows(|s.words|, n)
  {
    upTo > 0 && (WindowAt(s.words, n, upTo - 1) == w || HoldsEarly(s, n, w, upTo - 1))
  }

  predicate Holds(s: Source, n: nat, w: Window)
    requires n >= 1
  {
    HoldsEarly(s, n, w, Windows(|s.words|, n))
  }

  // ---------------------------------------------------------------- path order

  /** Strings in code point order. */
  predicate Before(a: string, b: string) {
    if a == "" then true
    else if b == "" then false
    else a[0] < b[0] || (a[0] == b[0] && Before(a[1..], b[1..]))
  }

  predicate PathBefore(a: Source, b: Source) { Before(a.path, b.path) }

  lemma SameFirst(a: string, b: string, k: nat)
    requires 0 < k <= |a| && k <= |b| && a[..k] == b[..k]
    ensures a[0] == b[0]
  {
    assert a[..k][0] == b[..k][0];
  }

  lemma FirstDiffers(a: string, b: string)
    requires a != "" && b != "" && a[0] != b[0]
    ensures !(a <= b)
  {}

  /** The first difference decides, and a prefix comes first. */
  lemma {:induction false} BeforeIs(a: string, b: string)
    ensures Before(a, b) <==>
            a <= b || exists k :: 0 <= k < |a| && k < |b| && a[..k] == b[..k] && a[k] < b[k]
  {
    if a != "" && b != "" {
      HeadTail(a);
      HeadTail(b);
      if a[0] == b[0] {
        BeforeIs(a[1..], b[1..]);
        if a[1..] <= b[1..] { assert b == [a[0]] + b[1..]; }
        if a <= b { assert b[..|a|] == a; assert b[1..][..|a| - 1] == a[1..]; }
        if k :| 0 <= k < |a[1..]| && k < |b[1..]| && a[1..][..k] == b[1..][..k] && a[1..][k] < b[1..][k] {
          assert a[..k + 1] == [a[0]] + a[1..][..k] && b[..k + 1] == [b[0]] + b[1..][..k];
        }
        if k :| 0 <= k < |a| && k < |b| && a[..k] == b[..k] && a[k] < b[k] {
          assert k > 0 && a[1..][..k - 1] == a[..k][1..] && b[1..][..k - 1] == b[..k][1..];
        }
      } else {
        if a[0] < b[0] { assert a[..0] == b[..0]; }
        if k :| 0 <= k < |a| && k < |b| && a[..k] == b[..k] && a[k] < b[k] {
          if k > 0 { SameFirst(a, b, k); }
        }
        FirstDiffers(a, b);
      }
    }
  }

  lemma {:induction false} BeforeTotal(a: string, b: string)
    ensures Before(a, b) || Before(b, a)
  {
    if a != "" && b != "" { BeforeTotal(a[1..], b[1..]); }
  }

  lemma {:induction false} BeforeTransitive(a: string, b: string, c: string)
    requires Before(a, b) && Before(b, c)
    ensures Before(a, c)
  {
    if a != "" && b != "" && c != "" && a[0] == b[0] == c[0] { BeforeTransitive(a[1..], b[1..], c[1..]); }
  }

  lemma PathOrder()
    ensures TotalOrder(PathBefore)
  {
    forall x: Source, y: Source ensures PathBefore(x, y) || PathBefore(y, x) { BeforeTotal(x.path, y.path); }
    forall x: Source, y: Source, z: Source | PathBefore(x, y) && PathBefore(y, z) ensures PathBefore(x, z) {
      BeforeTransitive(x.path, y.path, z.path);
    }
  }

  // ---------------------------------------------------------------- the index

  function Get(index: Index, w: Window): Option<string> {
    if w in index then Some(index[w]) else None
  }

  /** The first source of a list that holds `w`. */
  function FirstHolder(order: seq<Source>, n: nat, w: Window): Option<string>
    requires n >= 1
  {
    if order == [] then None
    else
      var earlier := FirstHolder(order[..|order| - 1], n, w);
      var last := order[|order| - 1];
      if earlier.Some? then earlier else if Holds(last, n, w) then Some(last.path) else None
  }

  method IndexSources(sources: seq<Source>, n: nat) returns (found: Index)
    requires n >= 1
    ensures forall w :: Get(found, w) == FirstHolder(Sort(PathBefore, sources), n, w)
  {
    found := map[];
    var order := Sort(PathBefore, sources);
    for k := 0 to |order|
      invariant forall w :: Get(found, w) == FirstHolder(order[..k], n, w)
    {
      TakeTake(order, k + 1, k);
      var s := order[k];
      for i := 0 to Windows(|s.words|, n)
        invariant forall w ::
          Get(found, w) ==
          if FirstHolder(order[..k], n, w).Some? then FirstHolder(order[..k], n, w)
          else if HoldsEarly(s, n, w, i) then Some(s.path) else None
      {
        var w := WindowAt(s.words, n, i);
        if w !in found { found := found[w := s.path]; }
      }
    }
    NoneLeft(order);
  }

  /** `order[i]` holds `w` and no earlier source does. */
  ghost predicate FirstAt(order: seq<Source>, n: nat, w: Window, i: nat)
    requires n >= 1 && i < |order|
  {
    Holds(order[i], n, w) && forall j :: 0 <= j < i ==> !Holds(order[j], n, w)
  }

  lemma {:induction false} FirstHolderIs(order: seq<Source>, n: nat, w: Window) returns (i: nat)
    requires n >= 1
    ensures FirstHolder(order, n, w).None? ==> forall s :: s in order ==> !Holds(s, n, w)
    ensures FirstHolder(order, n, w).Some? ==>
              i < |order| && FirstAt(order, n, w, i) && order[i].path == FirstHolder(order, n, w).value
  {
    hide Holds, FirstAt;
    i := 0;
    if order != [] {
      var init, last := order[..|order| - 1], |order| - 1;
      i := FirstHolderIs(init, n, w);
      if FirstHolder(init, n, w).None? {
        i := last;
        LastHolder(order, n, w);
      } else {
        FirstAtLonger(order, n, w, i);
      }
    }
  }

  lemma FirstAtLonger(order: seq<Source>, n: nat, w: Window, i: nat)
    requires n >= 1 && i < |order| - 1 && FirstAt(order[..|order| - 1], n, w, i)
    ensures FirstAt(order, n, w, i)
  {
    hide Holds;
    var init := order[..|order| - 1];
    assert forall j :: 0 <= j < |init| ==> order[j] == init[j];
  }

  /** When none but perhaps the last source holds `w`. */
  lemma LastHolder(order: seq<Source>, n: nat, w: Window)
    requires n >= 1 && order != [] && forall s :: s in order[..|order| - 1] ==> !Holds(s, n, w)
    ensures Holds(order[|order| - 1], n, w) ==> FirstAt(order, n, w, |order| - 1)
    ensures !Holds(order[|order| - 1], n, w) ==> forall s :: s in order ==> !Holds(s, n, w)
  {
    hide Holds;
    var init, last := order[..|order| - 1], order[|order| - 1];
    forall j | 0 <= j < |init| ensures !Holds(order[j], n, w) { assert order[j] == init[j] && init[j] in init; }
  }

  /** The index names, for each window of some source and no other, the least path that holds it. */
  lemma IndexIsLeast(sources: seq<Source>, n: nat, w: Window)
    requires n >= 1
    ensures var first := FirstHolder(Sort(PathBefore, sources), n, w);
            && (first.Some? <==> exists s :: s in sources && Holds(s, n, w))
            && (first.Some? ==>
                  (exists s :: s in sources && Holds(s, n, w) && s.path == first.value) &&
                  (forall s :: s in sources && Holds(s, n, w) ==> Before(first.value, s.path)))
  {
    hide Holds, FirstHolder, Before, Sort, TotalOrder;
    var order := Sort(PathBefore, sources);
    var i := FirstHolderIs(order, n, w);
    forall s ensures s in order <==> s in sources { SortMembers(PathBefore, sources, s); }
    if FirstHolder(order, n, w).Some? {
      assert order[i] in order;
      forall s | s in sources && Holds(s, n, w) ensures Before(order[i].path, s.path) {
        assert s in order;
        FirstIsLeast(sources, n, w, i, s);
      }
    }
  }

  /** The sources are walked in path order, so the first holder has the least path. */
  lemma FirstIsLeast(sources: seq<Source>, n: nat, w: Window, i: nat, s: Source)
    requires n >= 1 && s in Sort(PathBefore, sources) && Holds(s, n, w)
    requires i < |Sort(PathBefore, sources)| && FirstAt(Sort(PathBefore, sources), n, w, i)
    ensures Before(Sort(PathBefore, sources)[i].path, s.path)
  {
    hide Holds, Before, Sort, TotalOrder;
    var order := Sort(PathBefore, sources);
    PathOrder();
    SortSorted(PathBefore, sources);
    var j :| 0 <= j < |order| && order[j] == s;
    BeforeTotal(s.path, s.path);
    assert i < j ==> PathBefore(order[i], order[j]);
  }

  /** Holding a window is having it at some place. */
  lemma {:induction false} HoldsIs(s: Source, n: nat, w: Window, upTo: nat)
    requires n >= 1 && upTo <= Windows(|s.words|, n)
    ensures HoldsEarly(s, n, w, upTo) <==> exists i :: 0 <= i < upTo && WindowAt(s.words, n, i) == w
  {
    if upTo > 0 { HoldsIs(s, n, w, upTo - 1); }
  }

  // ---------------------------------------------------------------- the runs

  /** Window `i` of the document is in the index. */
  predicate Hit(texts: seq<string>, index: Index, n: nat, i: nat)
    requires n >= 1
  {
    i < Windows(|texts|, n) && WindowAt(texts, n, i) in index
  }

  /** A maximal interval of hits: from `start` to `last`, with a miss or an end on either side. */
  ghost predicate Maximal(texts: seq<string>, index: Index, n: nat, start: nat, last: nat)
    requires n >= 1
  {
    && start <= last
    && (forall i :: start <= i <= last ==> Hit(texts, index, n, i))
    && (start > 0 ==> !Hit(texts, index, n, start - 1))
    && !Hit(texts, index, n, last + 1)
  }

  /** The run reported for the interval: its first line, its length in words, the source of its first window. */
  function RunAt(words: seq<Word>, index: Index, n: nat, start: nat, last: nat): Run
    requires n >= 1 && start <= last && Hit(Texts(words), index, n, start)
  {
    Run(words[start].line, last - start + n, index[WindowAt(Texts(words), n, start)])
  }

  datatype Interval = Interval(start: nat, last: nat)

  predicate Inside(spans: seq<Interval>, i: nat) {
    exists k :: 0 <= k < |spans| && spans[k].start <= i <= spans[k].last
  }

  /** Maximal intervals in document order, neighbours separated by a missing window. */
  ghost predicate Separated(texts: seq<string>, index: Index, n: nat, spans: seq<Interval>)
    requires n >= 1
  {
    && (forall k :: 0 <= k < |spans| ==> Maximal(texts, index, n, spans[k].start, spans[k].last))
    && (forall k :: 0 < k < |spans| ==> spans[k - 1].last + 1 < spans[k].start)
  }

  ghost predicate HitFrom(texts: seq<string>, index: Index, n: nat, start: nat, i: nat)
    requires n >= 1
  {
    && start < i && (forall j :: start <= j < i ==> Hit(texts, index, n, j))
    && (start > 0 ==> !Hit(texts, index, n, start - 1))
  }

  /** The scan before window `i`: closed intervals, and the one that is open, hold exactly the hits so far. */
  ghost predicate Scanned(texts: seq<string>, index: Index, n: nat, spans: seq<Interval>, start: Option<nat>, i: nat)
    requires n >= 1
  {
    var end := if start.Some? then start.value else i;
    && Separated(texts, index, n, spans)
    && (spans != [] ==> spans[|spans| - 1].last + 1 < end)
    && (if start.Some? then HitFrom(texts, index, n, start.value, i) else i > 0 ==> !Hit(texts, index, n, i - 1))
    && (forall j :: 0 <= j < i ==> (Hit(texts, index, n, j) <==> Inside(spans, j) || end <= j))
  }

  lemma ScanHit(texts: seq<string>, index: Index, n: nat, spans: seq<Interval>, start: Option<nat>, i: nat)
    requires n >= 1 && Scanned(texts, index, n, spans, start, i) && Hit(texts, index, n, i)
    ensures Scanned(texts, index, n, spans, if start.None? then Some(i) else start, i + 1)
  {
    hide Hit, Separated;
  }

  lemma ScanMiss(texts: seq<string>, index: Index, n: nat, spans: seq<Interval>, i: nat)
    requires n >= 1 && Scanned(texts, index, n, spans, None, i) && !Hit(texts, index, n, i)
    ensures Scanned(texts, index, n, spans, None, i + 1)
  {
    hide Hit, Separated, Inside;
    NotYetInside(texts, index, n, spans, i);
  }

  lemma {:induction false} LastIsGreatest(texts: seq<string>, index: Index, n: nat, spans: seq<Interval>, k: nat)
    requires n >= 1 && Separated(texts, index, n, spans) && k < |spans|
    ensures spans[k].last <= spans[|spans| - 1].last
    decreases |spans| - k
  {
    hide Hit;
    if k + 1 < |spans| {
      LastIsGreatest(texts, index, n, spans, k + 1);
      assert Maximal(texts, index, n, spans[k + 1].start, spans[k + 1].last);
    }
  }

  lemma InsideAppend(spans: seq<Interval>, x: Interval, j: nat)
    ensures Inside(spans + [x], j) <==> Inside(spans, j) || x.start <= j <= x.last
  {
    var more := spans + [x];
    if Inside(spans, j) {
      var k :| 0 <= k < |spans| && spans[k].start <= j <= spans[k].last;
      assert more[k] == spans[k];
    }
    if x.start <= j <= x.last { assert more[|spans|].start <= j <= more[|spans|].last; }
  }

  lemma SeparatedAppend(texts: seq<string>, index: Index, n: nat, spans: seq<Interval>, x: Interval)
    requires n >= 1 && Separated(texts, index, n, spans) && Maximal(texts, index, n, x.start, x.last)
    requires spans != [] ==> spans[|spans| - 1].last + 1 < x.start
    ensures Separated(texts, index, n, spans + [x])
  {
    hide Maximal;
  }

  lemma ScanClose(texts: seq<string>, index: Index, n: nat, spans: seq<Interval>, start: nat, i: nat)
    requires n >= 1 && Scanned(texts, index, n, spans, Some(start), i) && !Hit(texts, index, n, i)
    ensures Scanned(texts, index, n, spans + [Interval(start, i - 1)], None, i + 1)
  {
    hide Hit, Separated, Inside;
    var x := Interval(start, i - 1);
    SeparatedAppend(texts, index, n, spans, x);
    forall j | 0 <= j <= i ensures Inside(spans + [x], j) <==> Inside(spans, j) || start <= j <= i - 1 {
      InsideAppend(spans, x, j);
    }
    NotYetInside(texts, index, n, spans, i);
  }

  lemma NotYetInside(texts: seq<string>, index: Index, n: nat, spans: seq<Interval>, i: nat)
    requires n >= 1 && Separated(texts, index, n, spans) && (spans != [] ==> spans[|spans| - 1].last < i)
    ensures !Inside(spans, i)
  {
    hide Separated;
    forall k | 0 <= k < |spans| ensures spans[k].last < i { LastIsGreatest(texts, index, n, spans, k); }
  }

  /** `runs` reports the intervals one by one. */
  ghost predicate Reports(runs: seq<Run>, spans: seq<Interval>, words: seq<Word>, index: Index, n: nat)
    requires n >= 1
  {
    && |runs| == |spans|
    && (forall k :: 0 <= k < |spans| ==>
          spans[k].start <= spans[k].last && Hit(Texts(words), index, n, spans[k].start) &&
          runs[k] == RunAt(words, index, n, spans[k].start, spans[k].last))
  }

  predicate InWindow(i: nat, n: nat, k: nat) { i <= k < i + n }

  /** A run's words are the words of its windows, and it starts on the line of the first. */
  lemma RunWordsAre(words: seq<Word>, index: Index, n: nat, start: nat, last: nat, k: nat)
    requires n >= 1 && start <= last && Hit(Texts(words), index, n, start)
    ensures var run := RunAt(words, index, n, start, last);
            && run.line == words[start].line && Texts(words)[start..start + n] in index
            && run.source == index[Texts(words)[start..start + n]]
            && (start <= k < start + run.words <==> exists i: nat :: start <= i <= last && InWindow(i, n, k))
  {
    hide Texts;
    if start <= k < start + last - start + n {
      var i := if k < last then k else last;
      assert start <= i <= last && InWindow(i, n, k);
    }
  }

  /** All the maximal intervals of hits, in document order. */
  ghost predicate AllMaximal(texts: seq<string>, index: Index, n: nat, spans: seq<Interval>)
    requires n >= 1
  {
    Separated(texts, index, n, spans) && forall i: nat :: Hit(texts, index, n, i) <==> Inside(spans, i)
  }

  /** `runs` reports all the maximal intervals of hits and nothing else. */
  ghost predicate AreRuns(runs: seq<Run>, words: seq<Word>, index: Index, n: nat)
    requires n >= 1
  {
    exists spans :: AllMaximal(Texts(words), index, n, spans) && Reports(runs, spans, words, index, n)
  }

  lemma {:induction false} StartsAscend(texts: seq<string>, index: Index, n: nat, spans: seq<Interval>, k: nat, m: nat)
    requires n >= 1 && Separated(texts, index, n, spans) && k < m < |spans|
    ensures spans[k].start < spans[m].start
    decreases m - k
  {
    hide Hit;
    assert Maximal(texts, index, n, spans[m - 1].start, spans[m - 1].last);
    if k < m - 1 { StartsAscend(texts, index, n, spans, k, m - 1); }
  }

  /** An interval of one list is in the other, no earlier than where the two lists stop agreeing. */
  lemma Elsewhere(texts: seq<string>, index: Index, n: nat, a: seq<Interval>, b: seq<Interval>, k: nat) returns (m: nat)
    requires n >= 1 && AllMaximal(texts, index, n, a) && AllMaximal(texts, index, n, b)
    requires k < |a| && k <= |b| && a[..k] == b[..k]
    ensures k <= m < |b| && b[m] == a[k]
  {
    hide Hit;
    assert Maximal(texts, index, n, a[k].start, a[k].last);
    assert Inside(b, a[k].start);
    m :| 0 <= m < |b| && b[m].start <= a[k].start <= b[m].last;
    if m < k {
      assert a[m] == a[..k][m] == b[..k][m] == b[m];
      StartsAscend(texts, index, n, a, m, k);
    }
  }

  lemma {:induction false} MaximalUnique(texts: seq<string>, index: Index, n: nat, a: seq<Interval>, b: seq<Interval>, k: nat)
    requires n >= 1 && AllMaximal(texts, index, n, a) && AllMaximal(texts, index, n, b)
    requires k <= |a| && k <= |b| && a[..k] == b[..k]
    ensures a == b
    decreases |a| - k
  {
    hide Hit, Separated, Inside;
    if k < |a| {
      var m := Elsewhere(texts, index, n, a, b, k);
      var l := Elsewhere(texts, index, n, b, a, k);
      if k < m { StartsAscend(texts, index, n, b, k, m); }
      if k < l { StartsAscend(texts, index, n, a, k, l); }
      assert a[..k + 1] == a[..k] + [a[k]] == b[..k + 1];
      MaximalUnique(texts, index, n, a, b, k + 1);
    } else if k < |b| {
      var l := Elsewhere(texts, index, n, b, a, k);
    }
  }

  /** The document and the index determine the report. */
  lemma RunsUnique(runs: seq<Run>, other: seq<Run>, words: seq<Word>, index: Index, n: nat)
    requires n >= 1 && AreRuns(runs, words, index, n) && AreRuns(other, words, index, n)
    ensures runs == other
  {
    hide AllMaximal, Texts, Hit;
    var a :| AllMaximal(Texts(words), index, n, a) && Reports(runs, a, words, index, n);
    var b :| AllMaximal(Texts(words), index, n, b) && Reports(other, b, words, index, n);
    MaximalUnique(Texts(words), index, n, a, b, 0);
  }

  /** The maximal runs whose every window is in the index, in document order. */
  method FindRuns(words: seq<Word>, index: Index, n: nat) returns (runs: seq<Run>)
    requires n >= 1
    ensures AreRuns(runs, words, index, n)
  {
    hide Scanned, Separated, Texts, Inside, AllMaximal;
    runs := [];
    ghost var spans: seq<Interval> := [];
    ghost var texts := Texts(words);
    var total := Windows(|words|, n);
    var start: Option<nat>, source := None, "";
    NothingScanned(texts, index, n);
    for i := 0 to total
      invariant Reports(runs, spans, words, index, n) && Scanned(texts, index, n, spans, start, i)
      invariant start.Some? ==> start.value < i && Hit(texts, index, n, start.value)
      invariant start.Some? ==> source == index[WindowAt(texts, n, start.value)]
    {
      var hit := WindowAt(Texts(words), n, i) in index;
      if hit {
        ScanHit(texts, index, n, spans, start, i);
        if start.None? { start, source := Some(i), index[WindowAt(Texts(words), n, i)]; }
      } else if start.Some? {
        ScanClose(texts, index, n, spans, start.value, i);
        runs := runs + [Run(words[start.value].line, i - 1 - start.value + n, source)];
        spans := spans + [Interval(start.value, i - 1)];
        start := None;
      } else {
        ScanMiss(texts, index, n, spans, i);
      }
    }
    assert !Hit(texts, index, n, total);
    if start.Some? {
      ScanClose(texts, index, n, spans, start.value, total);
      runs := runs + [Run(words[start.value].line, |words| - start.value, source)];
      spans := spans + [Interval(start.value, total - 1)];
    } else {
      ScanMiss(texts, index, n, spans, total);
    }
    ScanComplete(texts, index, n, spans, total);
    assert AllMaximal(texts, index, n, spans) && Reports(runs, spans, words, index, n);
  }

  lemma NothingScanned(texts: seq<string>, index: Index, n: nat)
    requires n >= 1
    ensures Scanned(texts, index, n, [], None, 0)
  {}

  lemma ScanComplete(texts: seq<string>, index: Index, n: nat, spans: seq<Interval>, total: nat)
    requires n >= 1 && total == Windows(|texts|, n) && Scanned(texts, index, n, spans, None, total + 1)
    ensures AllMaximal(texts, index, n, spans)
  {
    forall i: nat ensures Hit(texts, index, n, i) <==> Inside(spans, i) {
      if i > total { NotYetInside(texts, index, n, spans, i); }
    }
  }
}
