/**
 Function-length findings of the structure ratchet (scripts/structure_ratchet.py).

 Functions over the limit are recorded per file under `fn:path:name`, and functions
 that share a name are told apart by their rank in length: `name`, `name~2`, ...
 The promise is that rearranging or improving a file never makes a recorded key rise.
 */
module RankedLengths {
  import opened Options
  import opened Seqs
  import opened Sorting

  /** One function and its length; None where the scan could not see it close. */
  datatype Span = Span(qualname: string, lines: Option<nat>)
  datatype Finding = Finding(key: string, value: nat)

  // ---------------------------------------------------------------- keys

  function Decimal(n: nat): (d: string)
    ensures |d| > 0 && '~' !in d
  {
    if n < 10 then [('0' as int + n) as char] else Decimal(n / 10) + [('0' as int + n % 10) as char]
  }

  lemma {:induction false} DecimalInjective(m: nat, n: nat)
    requires Decimal(m) == Decimal(n)
    ensures m == n
  {
    var c, d := Decimal(m), Decimal(n);
    assert c[|c| - 1] == ('0' as int + m % 10) as char;
    assert d[|d| - 1] == ('0' as int + n % 10) as char;
    assert m % 10 == n % 10;
    if m >= 10 && n >= 10 {
      assert c[..|c| - 1] == Decimal(m / 10) && d[..|d| - 1] == Decimal(n / 10);
      DecimalInjective(m / 10, n / 10);
    }
  }

  function Ranked(name: string, rank: nat): string {
    if rank == 1 then name else name + "~" + Decimal(rank)
  }

  function FnKey(path: string, name: string, rank: nat): string {
    "fn:" + path + ":" + Ranked(name, rank)
  }

  function UnmeasuredKey(path: string): string {
    "unmeasured:" + path
  }

  predicate Digits(s: string) {
    forall i :: 0 <= i < |s| ==> '0' <= s[i] <= '9'
  }

  /** What a numeral is worth. */
  function Value(digits: string): nat
    requires Digits(digits)
  {
    if digits == "" then 0 else 10 * Value(digits[..|digits| - 1]) + (digits[|digits| - 1] as int - '0' as int)
  }

  lemma {:induction false} DecimalIs(n: nat)
    ensures Digits(Decimal(n)) && Value(Decimal(n)) == n
    ensures n > 0 ==> Decimal(n)[0] != '0'
  {
    var d := Decimal(n);
    if n < 10 {
      assert d[..0] == "";
    } else {
      DecimalIs(n / 10);
      assert d[..|d| - 1] == Decimal(n / 10);
    }
  }

  /** How the keys are written: the longest function of a name under the name, the others under a numbered one. */
  lemma KeysSpelled(path: string, name: string, rank: nat)
    ensures FnKey(path, name, 1) == "fn:" + path + ":" + name && UnmeasuredKey(path) == "unmeasured:" + path
    ensures rank > 1 ==>
              exists digits :: FnKey(path, name, rank) == "fn:" + path + ":" + (name + "~" + digits) && digits != "" &&
                digits[0] != '0' && Digits(digits) && Value(digits) == rank
  {
    DecimalIs(rank);
  }

  lemma RankedSplit(name: string, rank: nat)
    requires '~' !in name && rank != 1
    ensures |Ranked(name, rank)| > |name| && Ranked(name, rank)[|name|] == '~'
    ensures Ranked(name, rank)[..|name|] == name && Ranked(name, rank)[|name| + 1..] == Decimal(rank)
    ensures forall i :: 0 <= i < |name| ==> Ranked(name, rank)[i] != '~'
  {
    Assoc(name, "~", Decimal(rank));
    ConcatLeft(name, "~" + Decimal(rank), |name|);
    ConcatRight(name, "~" + Decimal(rank), 1);
    NoneLeft(name);
  }

  lemma RankedDistinct(name: string, rank: nat, name': string, rank': nat)
    requires '~' !in name && '~' !in name' && Ranked(name, rank) == Ranked(name', rank')
    ensures name == name' && rank == rank'
  {
    hide Decimal;
    if rank != 1 { RankedSplit(name, rank); }
    if rank' != 1 { RankedSplit(name', rank'); }
    if rank != 1 && rank' != 1 { DecimalInjective(rank, rank'); }
  }

  /** Distinct (name, rank) pairs never share a key, as long as names hold no `~`. */
  lemma KeysDistinct(path: string, name: string, rank: nat, name': string, rank': nat)
    requires '~' !in name && '~' !in name' && FnKey(path, name, rank) == FnKey(path, name', rank')
    ensures name == name' && rank == rank'
  {
    hide Ranked;
    var head := "fn:" + path + ":";
    ConcatRight(head, Ranked(name, rank), 0);
    ConcatRight(head, Ranked(name', rank'), 0);
    NoneLeft(Ranked(name, rank));
    NoneLeft(Ranked(name', rank'));
    RankedDistinct(name, rank, name', rank');
  }

  lemma KindsDistinct(path: string, name: string, rank: nat)
    ensures FnKey(path, name, rank) != UnmeasuredKey(path)
  {
    assert FnKey(path, name, rank)[0] == 'f' && UnmeasuredKey(path)[0] == 'u';
  }

  // ---------------------------------------------------------------- what a file's spans say

  /** The lengths over `limit` of the functions called `name`, in file order. */
  function Lengths(spans: seq<Span>, name: string, limit: nat): (r: seq<nat>)
    ensures forall n :: n in r ==> n > limit
  {
    if spans == [] then []
    else
      var last := spans[|spans| - 1];
      Lengths(spans[..|spans| - 1], name, limit) +
      if last.qualname == name && last.lines.Some? && last.lines.value > limit then [last.lines.value] else []
  }

  function Unmeasured(spans: seq<Span>): nat {
    if spans == [] then 0
    else Unmeasured(spans[..|spans| - 1]) + if spans[|spans| - 1].lines.None? then 1 else 0
  }

  predicate Longer(a: nat, b: nat) { a >= b }

  /** The `k`-th largest of `ls`, counted from 1; 0 past the end. */
  function NthLargest(ls: seq<nat>, k: nat): nat {
    var sorted := Sort(Longer, ls);
    if 1 <= k <= |sorted| then sorted[k - 1] else 0
  }

  /** The findings as the dictionary that is compared with the baseline. */
  function CountsOf(findings: seq<Finding>): map<string, nat> {
    if findings == [] then map[]
    else CountsOf(findings[..|findings| - 1])[findings[|findings| - 1].key := findings[|findings| - 1].value]
  }

  /** `counts.get(key, 0)`. */
  function Get(counts: map<string, nat>, key: string): nat {
    if key in counts then counts[key] else 0
  }

  lemma CountsAppend(findings: seq<Finding>, f: Finding)
    ensures CountsOf(findings + [f]) == CountsOf(findings)[f.key := f.value]
  {
    assert (findings + [f])[..|findings|] == findings;
  }

  predicate PlainNames(spans: seq<Span>) {
    forall s :: s in spans ==> '~' !in s.qualname
  }

  /** The dictionary holds each name's over-limit lengths by rank, the unmeasured count, and nothing else. */
  ghost predicate Describes(counts: map<string, nat>, path: string, spans: seq<Span>, limit: nat) {
    && (forall name, k: nat :: '~' !in name && k >= 1 ==>
          Get(counts, FnKey(path, name, k)) == NthLargest(Lengths(spans, name, limit), k))
    && Get(counts, UnmeasuredKey(path)) == Unmeasured(spans)
    && (forall key :: key in counts ==>
          key == UnmeasuredKey(path) || exists name, k: nat :: '~' !in name && k >= 1 && key == FnKey(path, name, k))
  }

  /** Keys of `path` holding exactly the ranks recorded so far: whole names in `done`, and `upTo` ranks of `name`. */
  ghost predicate Recorded(counts: map<string, nat>, path: string, spans: seq<Span>, limit: nat,
                           done: seq<string>, name: string, upTo: nat) {
    && (forall n, k: nat :: '~' !in n && k >= 1 ==>
          Get(counts, FnKey(path, n, k)) ==
          if n in done || (n == name && k <= upTo) then NthLargest(Lengths(spans, n, limit), k) else 0)
    && UnmeasuredKey(path) !in counts
    && (forall key :: key in counts ==> exists n, k: nat :: '~' !in n && k >= 1 && key == FnKey(path, n, k))
  }

  lemma RecordRank(counts: map<string, nat>, path: string, spans: seq<Span>, limit: nat,
                   done: seq<string>, name: string, upTo: nat)
    requires Recorded(counts, path, spans, limit, done, name, upTo) && name !in done && '~' !in name
    ensures Recorded(counts[FnKey(path, name, upTo + 1) := NthLargest(Lengths(spans, name, limit), upTo + 1)],
                     path, spans, limit, done, name, upTo + 1)
  {
    hide FnKey, NthLargest, Lengths, UnmeasuredKey;
    var key := FnKey(path, name, upTo + 1);
    KindsDistinct(path, name, upTo + 1);
    forall n, k: nat | '~' !in n && k >= 1 && FnKey(path, n, k) == key ensures n == name && k == upTo + 1 {
      KeysDistinct(path, n, k, name, upTo + 1);
    }
  }

  lemma NameDone(counts: map<string, nat>, path: string, spans: seq<Span>, limit: nat,
                 done: seq<string>, name: string, next: string)
    requires Recorded(counts, path, spans, limit, done, name, |Lengths(spans, name, limit)|)
    ensures Recorded(counts, path, spans, limit, done + [name], next, 0)
  {
    hide FnKey, Lengths, UnmeasuredKey;
    SortPermutes(Longer, Lengths(spans, name, limit));
  }

  /** `names` lists the keys of `over` once each. */
  ghost predicate NamesOf(names: seq<string>, over: map<string, seq<nat>>) {
    && (forall n :: n in names <==> n in over)
    && (forall i, j :: 0 <= i < j < |names| ==> names[i] != names[j])
    && (forall n :: n in names ==> '~' !in n)
  }

  /** `over` holds the over-limit lengths of `spans` by name. */
  ghost predicate LengthsIn(spans: seq<Span>, limit: nat, over: map<string, seq<nat>>) {
    forall n :: Lengths(spans, n, limit) == if n in over then over[n] else []
  }

  ghost predicate Gathered(spans: seq<Span>, limit: nat, names: seq<string>, over: map<string, seq<nat>>) {
    NamesOf(names, over) && LengthsIn(spans, limit, over)
  }

  lemma NameAdded(names: seq<string>, over: map<string, seq<nat>>, name: string, lengths: seq<nat>)
    requires NamesOf(names, over) && '~' !in name
    ensures NamesOf(if name in over then names else names + [name], over[name := lengths])
  {}

  /** One more function over the limit extends its own list and no other. */
  lemma GatherOver(spans: seq<Span>, i: nat, limit: nat, names: seq<string>, over: map<string, seq<nat>>)
    requires i < |spans| && PlainNames(spans) && Gathered(spans[..i], limit, names, over)
    requires spans[i].lines.Some? && spans[i].lines.value > limit
    ensures var name := spans[i].qualname;
            Gathered(spans[..i + 1], limit, if name in over then names else names + [name],
                     over[name := (if name in over then over[name] else []) + [spans[i].lines.value]])
  {
    hide Lengths, NamesOf;
    var name := spans[i].qualname;
    var lengths := (if name in over then over[name] else []) + [spans[i].lines.value];
    assert '~' !in name by { assert spans[i] in spans; }
    NameAdded(names, over, name, lengths);
    hide PlainNames;
    LengthsStep(spans, i, limit);
    var over' := over[name := lengths];
    forall n ensures Lengths(spans[..i + 1], n, limit) == if n in over' then over'[n] else [] {
      NoneLeft(Lengths(spans[..i], n, limit));
    }
  }

  lemma GatherSkip(spans: seq<Span>, i: nat, limit: nat, names: seq<string>, over: map<string, seq<nat>>)
    requires i < |spans| && Gathered(spans[..i], limit, names, over)
    requires spans[i].lines.None? || spans[i].lines.value <= limit
    ensures Gathered(spans[..i + 1], limit, names, over)
  {
    hide Lengths, NamesOf;
    LengthsStep(spans, i, limit);
    forall n ensures Lengths(spans[..i + 1], n, limit) == Lengths(spans[..i], n, limit) {
      NoneLeft(Lengths(spans[..i], n, limit));
    }
  }

  lemma LengthsStep(spans: seq<Span>, i: nat, limit: nat)
    requires i < |spans|
    ensures forall n :: Lengths(spans[..i + 1], n, limit) == Lengths(spans[..i], n, limit) +
              if spans[i].qualname == n && spans[i].lines.Some? && spans[i].lines.value > limit
              then [spans[i].lines.value] else []
    ensures Unmeasured(spans[..i + 1]) == Unmeasured(spans[..i]) + if spans[i].lines.None? then 1 else 0
  {
    TakeTake(spans, i + 1, i);
  }

  /** Over-limit lengths by name, in order of first appearance. */
  method GatherLengths(spans: seq<Span>, limit: nat)
    returns (names: seq<string>, over: map<string, seq<nat>>, unmeasured: nat)
    requires PlainNames(spans)
    ensures Gathered(spans, limit, names, over)
    ensures unmeasured == Unmeasured(spans)
  {
    hide Gathered, Lengths, Unmeasured, PlainNames;
    names, over, unmeasured := [], map[], 0;
    NothingGathered(limit);
    NoneLeft(spans);
    for i := 0 to |spans|
      invariant Gathered(spans[..i], limit, names, over)
      invariant unmeasured == Unmeasured(spans[..i])
    {
      LengthsStep(spans, i, limit);
      var name := spans[i].qualname;
      if spans[i].lines.None? {
        GatherSkip(spans, i, limit, names, over);
        unmeasured := unmeasured + 1;
      } else if spans[i].lines.value > limit {
        GatherOver(spans, i, limit, names, over);
        ghost var grown := over[name := (if name in over then over[name] else []) + [spans[i].lines.value]];
        if name !in over { names, over := names + [name], over[name := []]; }
        over := over[name := over[name] + [spans[i].lines.value]];
        assert over == grown;
      } else {
        GatherSkip(spans, i, limit, names, over);
      }
    }
  }

  lemma NothingGathered(limit: nat)
    ensures Gathered([], limit, [], map[]) && Unmeasured([]) == 0
  {}

  lemma NothingRecorded(path: string, spans: seq<Span>, limit: nat)
    ensures CountsOf([]) == map[] && forall name :: Recorded(map[], path, spans, limit, [], name, 0)
  {}

  lemma GatheredAt(spans: seq<Span>, limit: nat, names: seq<string>, over: map<string, seq<nat>>, m: nat)
    requires Gathered(spans, limit, names, over) && m < |names|
    ensures names[m] in over && over[names[m]] == Lengths(spans, names[m], limit)
    ensures names[m] !in names[..m] && '~' !in names[m]
  {
    hide Lengths;
    assert names[m] in names;
  }

  lemma NotGathered(spans: seq<Span>, limit: nat, names: seq<string>, over: map<string, seq<nat>>)
    requires Gathered(spans, limit, names, over)
    ensures forall n :: n !in names ==> Lengths(spans, n, limit) == []
  {
    hide Lengths;
  }

  /** One more finding records one more rank. */
  lemma RecordNext(findings: seq<Finding>, path: string, spans: seq<Span>, limit: nat, done: seq<string>, name: string,
                   rank: nat, f: Finding)
    requires Recorded(CountsOf(findings), path, spans, limit, done, name, rank)
    requires name !in done && '~' !in name && rank < |Sort(Longer, Lengths(spans, name, limit))|
    requires f == Finding(FnKey(path, name, rank + 1), Sort(Longer, Lengths(spans, name, limit))[rank])
    ensures Recorded(CountsOf(findings + [f]), path, spans, limit, done, name, rank + 1)
  {
    hide Recorded, CountsOf, FnKey, Lengths, NthLargest, Sort;
    NthInside(Lengths(spans, name, limit), rank + 1);
    RecordRank(CountsOf(findings), path, spans, limit, done, name, rank);
    CountsAppend(findings, f);
  }

  /** The findings of one file. */
  method FunctionFindings(path: string, spans: seq<Span>, limit: nat) returns (findings: seq<Finding>)
    requires PlainNames(spans)
    ensures Describes(CountsOf(findings), path, spans, limit)
  {
    hide Gathered, FnKey, NthLargest, Lengths, UnmeasuredKey, Recorded, Describes, CountsOf, Sort, Unmeasured;
    findings := [];
    NothingRecorded(path, spans, limit);
    var names, over, unmeasured := GatherLengths(spans, limit);
    NoneLeft(names);
    for m := 0 to |names|
      invariant Recorded(CountsOf(findings), path, spans, limit, names[..m], if m < |names| then names[m] else "", 0)
    {
      var name := names[m];
      GatheredAt(spans, limit, names, over, m);
      var sorted := Sort(Longer, over[name]);
      SortPermutes(Longer, over[name]);
      for rank := 1 to |sorted| + 1
        invariant Recorded(CountsOf(findings), path, spans, limit, names[..m], name, rank - 1)
      {
        var f := Finding(FnKey(path, name, rank), sorted[rank - 1]);
        RecordNext(findings, path, spans, limit, names[..m], name, rank - 1, f);
        findings := findings + [f];
      }
      NameDone(CountsOf(findings), path, spans, limit, names[..m], name, if m + 1 < |names| then names[m + 1] else "");
      assert names[..m] + [name] == names[..m + 1];
    }
    NotGathered(spans, limit, names, over);
    AllRecorded(CountsOf(findings), path, spans, limit, names);
    if unmeasured > 0 {
      var f := Finding(UnmeasuredKey(path), unmeasured);
      CountsAppend(findings, f);
      findings := findings + [f];
    }
  }

  /** Once every name is recorded, the dictionary lacks only the unmeasured entry. */
  lemma AllRecorded(counts: map<string, nat>, path: string, spans: seq<Span>, limit: nat, names: seq<string>)
    requires Recorded(counts, path, spans, limit, names, "", 0)
    requires forall n :: n !in names ==> Lengths(spans, n, limit) == []
    ensures Unmeasured(spans) == 0 ==> Describes(counts, path, spans, limit)
    ensures Describes(counts[UnmeasuredKey(path) := Unmeasured(spans)], path, spans, limit)
  {
    hide FnKey, NthLargest, Lengths, UnmeasuredKey;
    forall name, k: nat | '~' !in name && k >= 1
      ensures Get(counts, FnKey(path, name, k)) == NthLargest(Lengths(spans, name, limit), k)
      ensures FnKey(path, name, k) != UnmeasuredKey(path)
    {
      KindsDistinct(path, name, k);
      NthOfNone(k);
    }
  }

  lemma NthInside(ls: seq<nat>, k: nat)
    requires 1 <= k <= |Sort(Longer, ls)|
    ensures NthLargest(ls, k) == Sort(Longer, ls)[k - 1]
  {}

  lemma NthOfNone(k: nat)
    ensures NthLargest([], k) == 0
  {}

  // ---------------------------------------------------------------- rank and threshold

  function CountAbove(ls: seq<nat>, threshold: nat): nat {
    if ls == [] then 0
    else CountAbove(ls[..|ls| - 1], threshold) + if ls[|ls| - 1] > threshold then 1 else 0
  }

  lemma {:induction false} CountAboveConcat(a: seq<nat>, b: seq<nat>, threshold: nat)
    ensures CountAbove(a + b, threshold) == CountAbove(a, threshold) + CountAbove(b, threshold)
  {
    NoneLeft(a);
    if b != [] {
      ConcatRight(a, b, |b| - 1);
      CountAboveConcat(a, b[..|b| - 1], threshold);
    }
  }

  lemma {:induction false} CountAboveInsert(x: nat, s: seq<nat>, threshold: nat)
    ensures CountAbove(Insert(Longer, x, s), threshold) == CountAbove([x] + s, threshold)
  {
    if s != [] && !Longer(x, s[0]) {
      CountAboveInsert(x, s[1..], threshold);
      CountAboveConcat([s[0]], Insert(Longer, x, s[1..]), threshold);
      CountAboveConcat([x], s[1..], threshold);
      CountAboveConcat([s[0]], s[1..], threshold);
      CountAboveConcat([x], s, threshold);
      HeadTail(s);
    }
  }

  lemma {:induction false} CountAboveSort(ls: seq<nat>, threshold: nat)
    ensures CountAbove(Sort(Longer, ls), threshold) == CountAbove(ls, threshold)
  {
    if ls != [] {
      CountAboveSort(ls[1..], threshold);
      CountAboveInsert(ls[0], Sort(Longer, ls[1..]), threshold);
      CountAboveConcat([ls[0]], Sort(Longer, ls[1..]), threshold);
      CountAboveConcat([ls[0]], ls[1..], threshold);
      HeadTail(ls);
    }
  }

  lemma {:induction false} CountSortedPrefix(s: seq<nat>, threshold: nat, k: nat)
    requires Sorted(Longer, s) && k >= 1
    ensures CountAbove(s, threshold) >= k <==> k <= |s| && s[k - 1] > threshold
    ensures CountAbove(s, threshold) <= |s|
  {
    if s != [] {
      CountSortedPrefix(s[..|s| - 1], threshold, k);
      if |s| >= 2 { CountSortedPrefix(s[..|s| - 1], threshold, |s| - 1); }
    }
  }

  /** The order statistic: the k-th largest is above a threshold exactly when at least k are. */
  lemma NthAbove(ls: seq<nat>, threshold: nat, k: nat)
    requires k >= 1
    ensures NthLargest(ls, k) > threshold <==> CountAbove(ls, threshold) >= k
  {
    CountAboveSort(ls, threshold);
    SortSorted(Longer, ls);
    CountSortedPrefix(Sort(Longer, ls), threshold, k);
  }

  lemma NthMember(ls: seq<nat>, k: nat)
    ensures NthLargest(ls, k) == 0 || NthLargest(ls, k) in ls
  {
    if NthLargest(ls, k) != 0 { SortMembers(Longer, ls, NthLargest(ls, k)); }
  }

  /** Rank by rank, `a` is no larger than `b`. */
  ghost predicate RanksBelow(a: seq<nat>, b: seq<nat>) {
    forall k: nat :: k >= 1 ==> NthLargest(a, k) <= NthLargest(b, k)
  }

  /** No threshold from `limit` up is exceeded more often in `a` than in `b`. */
  ghost predicate ThresholdsBelow(a: seq<nat>, b: seq<nat>, limit: nat) {
    forall t: nat :: t >= limit ==> CountAbove(a, t) <= CountAbove(b, t)
  }

  lemma RanksToThresholds(a: seq<nat>, b: seq<nat>, limit: nat)
    requires RanksBelow(a, b)
    ensures ThresholdsBelow(a, b, limit)
  {
    hide NthLargest, CountAbove;
    forall t: nat | t >= limit ensures CountAbove(a, t) <= CountAbove(b, t) {
      var c := CountAbove(a, t);
      if c >= 1 {
        NthAbove(a, t, c);
        NthAbove(b, t, c);
      }
    }
  }

  lemma ThresholdsToRanks(a: seq<nat>, b: seq<nat>, limit: nat)
    requires ThresholdsBelow(a, b, limit) && forall n :: n in a ==> n > limit
    ensures RanksBelow(a, b)
  {
    hide NthLargest, CountAbove;
    forall k: nat | k >= 1 ensures NthLargest(a, k) <= NthLargest(b, k) {
      var v := NthLargest(b, k);
      var t := if v > limit then v else limit;
      NthMember(a, k);
      NthAbove(a, t, k);
      NthAbove(b, t, k);
    }
  }

  /** Rank by rank no larger, if and only if no threshold is exceeded more often. */
  lemma Dominance(a: seq<nat>, b: seq<nat>, limit: nat)
    requires forall n :: n in a ==> n > limit
    ensures RanksBelow(a, b) <==> ThresholdsBelow(a, b, limit)
  {
    if RanksBelow(a, b) { RanksToThresholds(a, b, limit); }
    if ThresholdsBelow(a, b, limit) { ThresholdsToRanks(a, b, limit); }
  }

  /** How many functions called `name` are longer than `threshold`. */
  function CountOver(spans: seq<Span>, name: string, threshold: nat): nat {
    |Lengths(spans, name, threshold)|
  }

  lemma {:induction false} CountOverIs(spans: seq<Span>, name: string, limit: nat, threshold: nat)
    requires threshold >= limit
    ensures CountAbove(Lengths(spans, name, limit), threshold) == CountOver(spans, name, threshold)
  {
    if spans != [] {
      CountOverIs(spans[..|spans| - 1], name, limit, threshold);
      var last := spans[|spans| - 1];
      var before := Lengths(spans[..|spans| - 1], name, limit);
      NoneLeft(before);
      NoneLeft(Lengths(spans[..|spans| - 1], name, threshold));
      if last.lines.Some? {
        CountAboveConcat(before, [last.lines.value], threshold);
        assert [last.lines.value][..0] == [];
      }
    }
  }

  predicate IsOver(span: Span, name: string, threshold: nat) {
    span.qualname == name && span.lines.Some? && span.lines.value > threshold
  }

  lemma OneMoreIndex(n: nat, p: nat -> bool)
    ensures |set i: nat | i < n + 1 && p(i)| == |set i: nat | i < n && p(i)| + if p(n) then 1 else 0
  {
    var before, now := set i: nat | i < n && p(i), set i: nat | i < n + 1 && p(i);
    assert now == before + if p(n) then {n} else {};
  }

  function FunctionsOver(spans: seq<Span>, name: string, threshold: nat): set<nat> {
    set i: nat | i < |spans| && IsOver(spans[i], name, threshold)
  }

  function FunctionsOpen(spans: seq<Span>): set<nat> {
    set i: nat | i < |spans| && spans[i].lines == None
  }

  lemma OneMoreFunction(spans: seq<Span>, name: string, threshold: nat)
    requires spans != []
    ensures var init, last := spans[..|spans| - 1], spans[|spans| - 1];
            && |FunctionsOver(spans, name, threshold)| ==
               |FunctionsOver(init, name, threshold)| + (if IsOver(last, name, threshold) then 1 else 0)
            && |FunctionsOpen(spans)| == |FunctionsOpen(init)| + if last.lines == None then 1 else 0
  {
    hide IsOver;
    var init, n := spans[..|spans| - 1], |spans| - 1;
    var over := (i: nat) => i < |spans| && IsOver(spans[i], name, threshold);
    var open := (i: nat) => i < |spans| && spans[i].lines == None;
    OneMoreIndex(n, over);
    OneMoreIndex(n, open);
    assert FunctionsOver(spans, name, threshold) == set i: nat | i < n + 1 && over(i);
    assert FunctionsOver(init, name, threshold) == set i: nat | i < n && over(i);
    assert FunctionsOpen(spans) == set i: nat | i < n + 1 && open(i);
    assert FunctionsOpen(init) == set i: nat | i < n && open(i);
  }

  /** The lengths and the unmeasured count are of the functions themselves, each counted once. */
  lemma {:induction false} CountsFunctions(spans: seq<Span>, name: string, threshold: nat)
    ensures CountOver(spans, name, threshold) == |FunctionsOver(spans, name, threshold)|
    ensures Unmeasured(spans) == |FunctionsOpen(spans)|
  {
    if spans == [] {
      assert FunctionsOver(spans, name, threshold) == {} && FunctionsOpen(spans) == {};
    } else {
      hide FunctionsOver, FunctionsOpen;
      CountsFunctions(spans[..|spans| - 1], name, threshold);
      OneMoreFunction(spans, name, threshold);
    }
  }

  // ---------------------------------------------------------------- the ratchet

  /** The keys above the baseline. */
  function Rose(current: map<string, nat>, baseline: map<string, nat>): set<string> {
    set key | key in current.Keys + baseline.Keys && Get(current, key) > Get(baseline, key)
  }

  /** No more functions called `name` are longer than any threshold from the limit up. */
  ghost predicate NameNoLonger(current: seq<Span>, baseline: seq<Span>, name: string, limit: nat) {
    forall t: nat :: t >= limit ==> CountOver(current, name, t) <= CountOver(baseline, name, t)
  }

  ghost predicate NoLonger(current: seq<Span>, baseline: seq<Span>, limit: nat) {
    forall name :: '~' !in name ==> NameNoLonger(current, baseline, name, limit)
  }

  lemma NameDominance(current: seq<Span>, baseline: seq<Span>, name: string, limit: nat)
    ensures RanksBelow(Lengths(current, name, limit), Lengths(baseline, name, limit)) <==>
            NameNoLonger(current, baseline, name, limit)
  {
    hide NthLargest, CountAbove, CountOver, RanksBelow;
    Dominance(Lengths(current, name, limit), Lengths(baseline, name, limit), limit);
    forall t: nat | t >= limit
      ensures CountAbove(Lengths(current, name, limit), t) == CountOver(current, name, t)
      ensures CountAbove(Lengths(baseline, name, limit), t) == CountOver(baseline, name, t)
    {
      CountOverIs(current, name, limit, t);
      CountOverIs(baseline, name, limit, t);
    }
  }

  /** No key above the baseline: every `get` is at most the baseline's. */
  lemma RoseNone(current: map<string, nat>, baseline: map<string, nat>)
    ensures Rose(current, baseline) == {} <==> forall key :: Get(current, key) <= Get(baseline, key)
  {
    if Rose(current, baseline) == {} {
      forall key ensures Get(current, key) <= Get(baseline, key) {
        if key in current { assert key !in Rose(current, baseline); }
      }
    }
  }

  lemma KeysByName(current: map<string, nat>, baseline: map<string, nat>, path: string, limit: nat,
                   now: seq<Span>, before: seq<Span>)
    requires Describes(current, path, now, limit) && Describes(baseline, path, before, limit)
    ensures (forall key :: Get(current, key) <= Get(baseline, key)) <==>
            (forall name :: '~' !in name ==> RanksBelow(Lengths(now, name, limit), Lengths(before, name, limit)))
            && Unmeasured(now) <= Unmeasured(before)
  {
    hide FnKey, NthLargest, Lengths, UnmeasuredKey, Unmeasured;
    if forall key :: Get(current, key) <= Get(baseline, key) {
      assert Get(current, UnmeasuredKey(path)) <= Get(baseline, UnmeasuredKey(path));
      forall name, k: nat | '~' !in name && k >= 1
        ensures NthLargest(Lengths(now, name, limit), k) <= NthLargest(Lengths(before, name, limit), k)
      {
        assert Get(current, FnKey(path, name, k)) <= Get(baseline, FnKey(path, name, k));
      }
    }
  }

  /**
   The ranked keys measure exactly this: the file passes the ratchet if and only if no name has more functions
   above any threshold, and no more functions went unmeasured.
   */
  lemma PassesExactly(current: map<string, nat>, baseline: map<string, nat>, path: string, limit: nat,
                      now: seq<Span>, before: seq<Span>)
    requires Describes(current, path, now, limit) && Describes(baseline, path, before, limit)
    ensures Rose(current, baseline) == {} <==> NoLonger(now, before, limit) && Unmeasured(now) <= Unmeasured(before)
  {
    hide Lengths, Unmeasured, RanksBelow, NameNoLonger, Describes;
    RoseNone(current, baseline);
    KeysByName(current, baseline, path, limit, now, before);
    forall name | '~' !in name
      ensures RanksBelow(Lengths(now, name, limit), Lengths(before, name, limit)) <==>
              NameNoLonger(now, before, name, limit)
    {
      NameDominance(now, before, name, limit);
    }
  }

  // ---------------------------------------------------------------- edits that never raise a key

  datatype Edit =
    | Swap(i: nat, j: nat)          // reorder
    | Delete(i: nat)
    | Shorten(i: nat, lines: nat)
    | AddShort(i: nat, span: Span)  // a new function at or under the limit

  predicate Allowed(spans: seq<Span>, e: Edit, limit: nat) {
    match e
    case Swap(i, j) => i < j < |spans|
    case Delete(i) => i < |spans|
    case Shorten(i, lines) => i < |spans| && spans[i].lines.Some? && lines <= spans[i].lines.value
    case AddShort(i, span) => i <= |spans| && span.lines.Some? && span.lines.value <= limit && '~' !in span.qualname
  }

  function Apply(spans: seq<Span>, e: Edit, limit: nat): seq<Span>
    requires Allowed(spans, e, limit)
  {
    match e
    case Swap(i, j) => spans[..i] + [spans[j]] + spans[i + 1..j] + [spans[i]] + spans[j + 1..]
    case Delete(i) => spans[..i] + spans[i + 1..]
    case Shorten(i, lines) => spans[..i] + [spans[i].(lines := Some(lines))] + spans[i + 1..]
    case AddShort(i, span) => spans[..i] + [span] + spans[i..]
  }

  function Weight(span: Span, name: string, threshold: nat): nat {
    if span.qualname == name && span.lines.Some? && span.lines.value > threshold then 1 else 0
  }

  lemma LastCounts(spans: seq<Span>, last: Span, name: string, threshold: nat)
    ensures CountOver(spans + [last], name, threshold) == CountOver(spans, name, threshold) + Weight(last, name, threshold)
    ensures Unmeasured(spans + [last]) == Unmeasured(spans) + if last.lines.None? then 1 else 0
  {
    assert (spans + [last])[..|spans|] == spans;
  }

  lemma {:induction false} CountOverConcat(a: seq<Span>, b: seq<Span>, name: string, threshold: nat)
    ensures CountOver(a + b, name, threshold) == CountOver(a, name, threshold) + CountOver(b, name, threshold)
    ensures Unmeasured(a + b) == Unmeasured(a) + Unmeasured(b)
  {
    NoneLeft(a);
    if b == [] {
      assert CountOver([], name, threshold) == 0 && Unmeasured([]) == 0;
    } else {
      hide CountOver, Unmeasured, Weight;
      var init, last := b[..|b| - 1], b[|b| - 1];
      CountOverConcat(a, init, name, threshold);
      LastCounts(init, last, name, threshold);
      LastCounts(a + init, last, name, threshold);
      assert b == init + [last];
      Assoc(a, init, [last]);
    }
  }

  lemma CountOverOne(span: Span, name: string, threshold: nat)
    ensures CountOver([span], name, threshold) == Weight(span, name, threshold)
    ensures Unmeasured([span]) == if span.lines.None? then 1 else 0
  {
    assert [span][..0] == [];
    assert Lengths([], name, threshold) == [];
    assert Unmeasured([]) == 0;
  }

  lemma SplitAt(spans: seq<Span>, i: nat, name: string, t: nat)
    requires i < |spans|
    ensures CountOver(spans, name, t) ==
            CountOver(spans[..i], name, t) + Weight(spans[i], name, t) + CountOver(spans[i + 1..], name, t)
    ensures Unmeasured(spans) ==
            Unmeasured(spans[..i]) + (if spans[i].lines.None? then 1 else 0) + Unmeasured(spans[i + 1..])
  {
    hide CountOver, Unmeasured;
    assert spans == spans[..i] + [spans[i]] + spans[i + 1..];
    CountOverConcat(spans[..i] + [spans[i]], spans[i + 1..], name, t);
    CountOverConcat(spans[..i], [spans[i]], name, t);
    CountOverOne(spans[i], name, t);
  }

  lemma EditCounts(spans: seq<Span>, e: Edit, limit: nat, name: string, t: nat)
    requires Allowed(spans, e, limit) && t >= limit
    ensures CountOver(Apply(spans, e, limit), name, t) <= CountOver(spans, name, t)
    ensures Unmeasured(Apply(spans, e, limit)) <= Unmeasured(spans)
  {
    hide CountOver, Unmeasured;
    match e {
      case Swap(i, j) => SwapCounts(spans, i, j, name, t);
      case Delete(i) =>
        SplitAt(spans, i, name, t);
        CountOverConcat(spans[..i], spans[i + 1..], name, t);
      case Shorten(i, lines) =>
        var shorter := spans[i].(lines := Some(lines));
        SplitAt(spans, i, name, t);
        CountOverConcat(spans[..i] + [shorter], spans[i + 1..], name, t);
        CountOverConcat(spans[..i], [shorter], name, t);
        CountOverOne(shorter, name, t);
      case AddShort(i, span) =>
        Split(spans, i);
        CountOverConcat(spans[..i], spans[i..], name, t);
        CountOverConcat(spans[..i] + [span], spans[i..], name, t);
        CountOverConcat(spans[..i], [span], name, t);
        CountOverOne(span, name, t);
    }
  }

  lemma SwapCounts(spans: seq<Span>, i: nat, j: nat, name: string, t: nat)
    requires i < j < |spans|
    ensures var swapped := spans[..i] + [spans[j]] + spans[i + 1..j] + [spans[i]] + spans[j + 1..];
            CountOver(swapped, name, t) == CountOver(spans, name, t) && Unmeasured(swapped) == Unmeasured(spans)
  {
    hide CountOver, Unmeasured;
    var mid := spans[i + 1..j];
    SplitAt(spans, i, name, t);
    SplitAt(spans[i + 1..], j - i - 1, name, t);
    assert spans[i + 1..][..j - i - 1] == mid && spans[i + 1..][j - i..] == spans[j + 1..];
    CountOverConcat(spans[..i] + [spans[j]] + mid + [spans[i]], spans[j + 1..], name, t);
    CountOverConcat(spans[..i] + [spans[j]] + mid, [spans[i]], name, t);
    CountOverConcat(spans[..i] + [spans[j]], mid, name, t);
    CountOverConcat(spans[..i], [spans[j]], name, t);
    CountOverOne(spans[i], name, t);
    CountOverOne(spans[j], name, t);
  }

  /** `after` comes from `before` by allowed edits, in any number and order. */
  ghost predicate Eased(before: seq<Span>, edits: seq<Edit>, after: seq<Span>, limit: nat)
    decreases |edits|
  {
    if edits == [] then before == after
    else Allowed(before, edits[0], limit) && Eased(Apply(before, edits[0], limit), edits[1..], after, limit)
  }

  lemma {:induction false} EasedCounts(before: seq<Span>, edits: seq<Edit>, after: seq<Span>, limit: nat,
                                       name: string, t: nat)
    requires Eased(before, edits, after, limit) && t >= limit
    ensures CountOver(after, name, t) <= CountOver(before, name, t)
    ensures Unmeasured(after) <= Unmeasured(before)
    decreases |edits|
  {
    hide CountOver, Unmeasured;
    if edits != [] {
      EditCounts(before, edits[0], limit, name, t);
      EasedCounts(Apply(before, edits[0], limit), edits[1..], after, limit, name, t);
    }
  }

  /** Reordering, deleting, shortening and adding short functions never make any key of the file rise. */
  lemma EasingNeverRises(current: map<string, nat>, baseline: map<string, nat>, path: string, limit: nat,
                         before: seq<Span>, edits: seq<Edit>, after: seq<Span>)
    requires Eased(before, edits, after, limit)
    requires Describes(current, path, after, limit) && Describes(baseline, path, before, limit)
    ensures Rose(current, baseline) == {}
  {
    hide Describes, CountOver, Rose, Unmeasured;
    EasedCounts(before, edits, after, limit, "", limit);
    forall name, t: nat | t >= limit ensures CountOver(after, name, t) <= CountOver(before, name, t) {
      EasedCounts(before, edits, after, limit, name, t);
    }
    PassesExactly(current, baseline, path, limit, after, before);
  }
}
