/**
 The baseline ledger of the conventions ratchet (scripts/conventions_ratchet.py): per-file,
 per-rule hit counts are compared with a recorded baseline that only shrinks unless
 additions are allowed.

 A `Counter` of positive counts is a multiset; the JSON text of the baseline is held as
 its list of entries.
 */
module RatchetLedger {
  import opened Options
  import opened Seqs

  const RULES: set<string> := {"no-window", "logging-not-print", "no-drive-path", "secret-compare", "git-wrapper",
                               "password-input-vendored", "login-lockout", "no-pwsh-stub", "must-use",
                               "subprocess-timeout"}

  type Counter = multiset<string>

  /** path -> Counter(rule) */
  type Counts = map<string, Counter>

  /** `counts.get(path, Counter())`. */
  function At(c: Counts, path: string): Counter {
    if path in c then c[path] else multiset{}
  }

  // ---------------------------------------------------------------- totals

  ghost function SumOver(c: Counts, paths: set<string>): nat {
    if paths == {} then 0
    else
      var p :| p in paths;
      |At(c, p)| + SumOver(c, paths - {p})
  }

  /** Every hit of every file. */
  ghost function Total(c: Counts): nat {
    SumOver(c, c.Keys)
  }

  lemma {:induction false} SumPick(c: Counts, paths: set<string>, p: string)
    requires p in paths
    ensures SumOver(c, paths) == |At(c, p)| + SumOver(c, paths - {p})
    decreases |paths|
  {
    var q :| q in paths && SumOver(c, paths) == |At(c, q)| + SumOver(c, paths - {q});
    if q != p {
      SumPick(c, paths - {q}, p);
      SumPick(c, paths - {p}, q);
      assert paths - {q} - {p} == paths - {p} - {q};
    }
  }

  /** Paths without hits add nothing. */
  lemma {:induction false} SumBeyond(c: Counts, paths: set<string>)
    requires c.Keys <= paths
    ensures SumOver(c, paths) == Total(c)
    decreases |paths|
  {
    if p :| p in paths && p !in c {
      SumPick(c, paths, p);
      SumBeyond(c, paths - {p});
    } else {
      assert paths == c.Keys;
    }
  }

  // ---------------------------------------------------------------- the comparison

  /** The baselined hits of these paths that are gone. */
  function GoneHits(current: Counts, baseline: Counts, paths: set<string>): Counts {
    map p | p in paths :: At(baseline, p) - At(current, p)
  }

  ghost function GoneOver(current: Counts, baseline: Counts, paths: set<string>): nat {
    SumOver(GoneHits(current, baseline, paths), paths)
  }

  /** The hits beyond the baseline, per file, files without any left out. */
  function AddedHits(current: Counts, baseline: Counts, paths: set<string>): Counts {
    map p | p in paths && At(current, p) - At(baseline, p) != multiset{} :: At(current, p) - At(baseline, p)
  }

  method Diff(current: Counts, baseline: Counts) returns (added: Counts, gone: nat)
    ensures added == AddedHits(current, baseline, current.Keys + baseline.Keys)
    ensures gone == GoneOver(current, baseline, current.Keys + baseline.Keys)
  {
    hide At, AddedHits, SumOver, GoneHits, GoneOver;
    added, gone := map[], 0;
    var todo := current.Keys + baseline.Keys;
    ghost var done: set<string> := {};
    NothingCompared(current, baseline);
    while todo != {}
      invariant done !! todo && done + todo == current.Keys + baseline.Keys
      invariant added == AddedHits(current, baseline, done)
      invariant gone == GoneOver(current, baseline, done)
      decreases todo
    {
      var path :| path in todo;
      var cur, base := At(current, path), At(baseline, path);
      var extra := cur - base;
      AddedStep(current, baseline, done, path);
      GoneStep(current, baseline, done, path);
      if extra != multiset{} { added := added[path := extra]; }
      gone := gone + |base - cur|;
      todo := todo - {path};
      done := done + {path};
    }
    assert done == current.Keys + baseline.Keys;
  }

  lemma NothingCompared(current: Counts, baseline: Counts)
    ensures AddedHits(current, baseline, {}) == map[] && GoneOver(current, baseline, {}) == 0
  {}

  lemma AddedAt(current: Counts, baseline: Counts, paths: set<string>, p: string)
    ensures var added, extra := AddedHits(current, baseline, paths), At(current, p) - At(baseline, p);
            && (p in added <==> p in paths && extra != multiset{})
            && (p in added ==> added[p] == extra)
  {
    hide At;
  }

  lemma AddedStep(current: Counts, baseline: Counts, done: set<string>, path: string)
    requires path !in done
    ensures var extra := At(current, path) - At(baseline, path);
            var before := AddedHits(current, baseline, done);
            AddedHits(current, baseline, done + {path}) == if extra != multiset{} then before[path := extra] else before
  {
    hide At, AddedHits;
    var extra := At(current, path) - At(baseline, path);
    var before, after := AddedHits(current, baseline, done), AddedHits(current, baseline, done + {path});
    var expected := if extra != multiset{} then before[path := extra] else before;
    forall p ensures (p in after <==> p in expected) && (p in after ==> after[p] == expected[p]) {
      AddedAt(current, baseline, done, p);
      AddedAt(current, baseline, done + {path}, p);
    }
    SameMap(after, expected);
  }

  lemma {:induction false} SumSame(c: Counts, d: Counts, paths: set<string>)
    requires forall p :: p in paths ==> At(c, p) == At(d, p)
    ensures SumOver(c, paths) == SumOver(d, paths)
    decreases |paths|
  {
    if p :| p in paths {
      SumPick(c, paths, p);
      SumPick(d, paths, p);
      SumSame(c, d, paths - {p});
    }
  }

  lemma GoneStep(current: Counts, baseline: Counts, done: set<string>, path: string)
    requires path !in done
    ensures GoneOver(current, baseline, done + {path}) ==
            GoneOver(current, baseline, done) + |At(baseline, path) - At(current, path)|
  {
    hide SumOver;
    var before := GoneHits(current, baseline, done);
    var after := GoneHits(current, baseline, done + {path});
    SumPick(after, done + {path}, path);
    assert done + {path} - {path} == done;
    SumSame(after, before, done);
  }

  lemma {:induction false} PathsBalance(current: Counts, baseline: Counts, added: Counts, gone: Counts, paths: set<string>)
    requires forall p :: p in paths ==> At(added, p) == At(current, p) - At(baseline, p)
    requires forall p :: p in paths ==> At(gone, p) == At(baseline, p) - At(current, p)
    ensures SumOver(current, paths) + SumOver(gone, paths) == SumOver(baseline, paths) + SumOver(added, paths)
    decreases |paths|
  {
    hide At;
    if p :| p in paths {
      SumPick(current, paths, p);
      SumPick(baseline, paths, p);
      SumPick(added, paths, p);
      SumPick(gone, paths, p);
      PathsBalance(current, baseline, added, gone, paths - {p});
    }
  }

  /** The ledger balances: current and gone together are baseline and added together. */
  lemma LedgerBalances(current: Counts, baseline: Counts)
    ensures var paths := current.Keys + baseline.Keys;
            Total(current) + GoneOver(current, baseline, paths) ==
            Total(baseline) + Total(AddedHits(current, baseline, paths))
  {
    hide SumOver, At, GoneHits, AddedHits;
    var paths := current.Keys + baseline.Keys;
    var added, gone := AddedHits(current, baseline, paths), GoneHits(current, baseline, paths);
    forall p | p in paths
      ensures At(added, p) == At(current, p) - At(baseline, p) && At(gone, p) == At(baseline, p) - At(current, p)
    {
      HitsAt(current, baseline, paths, p);
    }
    PathsBalance(current, baseline, added, gone, paths);
    SumBeyond(current, paths);
    SumBeyond(baseline, paths);
    AddedWithin(current, baseline, paths);
    SumBeyond(added, paths);
  }

  lemma HitsAt(current: Counts, baseline: Counts, paths: set<string>, p: string)
    requires p in paths
    ensures At(AddedHits(current, baseline, paths), p) == At(current, p) - At(baseline, p)
    ensures At(GoneHits(current, baseline, paths), p) == At(baseline, p) - At(current, p)
  {}

  lemma AddedWithin(current: Counts, baseline: Counts, paths: set<string>)
    ensures AddedHits(current, baseline, paths).Keys <= paths
  {}

  /** Count by count, `c` is no larger than `d`. */
  ghost predicate AtMost(c: Counts, d: Counts) {
    forall p, r :: At(c, p)[r] <= At(d, p)[r]
  }

  /** Nothing is added exactly when every per-file, per-rule count is at most its baseline. */
  lemma NothingAddedExactly(current: Counts, baseline: Counts)
    ensures AddedHits(current, baseline, current.Keys + baseline.Keys) == map[] <==> AtMost(current, baseline)
  {
    var added := AddedHits(current, baseline, current.Keys + baseline.Keys);
    if added == map[] {
      forall p, r ensures At(current, p)[r] <= At(baseline, p)[r] {
        assert p !in added;
        assert (At(current, p) - At(baseline, p))[r] == 0;
      }
    }
    if AtMost(current, baseline) {
      forall p ensures p !in added {
        assert forall r :: (At(current, p) - At(baseline, p))[r] == 0;
        assert At(current, p) - At(baseline, p) == multiset{};
      }
    }
  }

  // ---------------------------------------------------------------- the baseline file

  /** One JSON entry: a path and its rule counts, as integers. */
  datatype Entry = Entry(key: string, counts: map<string, int>)

  /** Counts as the scan finds them: every file listed has hits, every hit is of a known rule. */
  ghost predicate WellFormed(c: Counts) {
    forall p :: p in c ==> c[p] != multiset{} && forall r :: r in c[p] ==> r in RULES
  }

  predicate EntryOk(e: Entry) {
    e.counts != map[] && forall r :: r in e.counts ==> r in RULES && e.counts[r] > 0
  }

  /** `Counter(counts)` of an accepted entry. */
  ghost function ToCounter(m: map<string, int>): (c: Counter)
    requires forall r :: r in m ==> m[r] > 0
    ensures forall r :: c[r] == if r in m then m[r] else 0
    decreases |m|
  {
    if m == map[] then multiset{}
    else
      var r :| r in m;
      ToCounter(m - {r})[r := m[r]]
  }

  /** The counts of the entries, later entries for a path winning; None where the source refuses the file. */
  ghost function ReadBaseline(entries: seq<Entry>): (c: Option<Counts>)
    ensures c.Some? ==> WellFormed(c.value)
  {
    if entries == [] then Some(map[])
    else
      var before := ReadBaseline(entries[..|entries| - 1]);
      var e := entries[|entries| - 1];
      if before.None? || !EntryOk(e) then None
      else
        var counter := ToCounter(e.counts);
        assert counter != multiset{} by {
          var r :| r in e.counts;
          assert counter[r] > 0;
        }
        Some(before.value[e.key := counter])
  }

  /** The record of one path: its known rules with a count. */
  function Record(c: Counts, path: string): Entry
    requires path in c
  {
    Entry(path, map r | r in RULES && c[path][r] > 0 :: c[path][r])
  }

  predicate Lists(entries: seq<Entry>, p: string) {
    exists i :: 0 <= i < |entries| && entries[i].key == p
  }

  /** Every entry is the record of a path of `c`. */
  ghost predicate AllRecords(entries: seq<Entry>, c: Counts) {
    forall i :: 0 <= i < |entries| ==> entries[i].key in c && entries[i] == Record(c, entries[i].key)
  }

  /** `entries` records each of these paths of `c` once, and no other; the source lists them sorted. */
  ghost predicate RendersPaths(entries: seq<Entry>, c: Counts, paths: set<string>) {
    && AllRecords(entries, c)
    && (forall i, j :: 0 <= i < j < |entries| ==> entries[i].key != entries[j].key)
    && (forall p :: p in paths <==> Lists(entries, p))
  }

  ghost predicate Renders(entries: seq<Entry>, c: Counts) {
    RendersPaths(entries, c, c.Keys)
  }

  lemma ListsAppend(entries: seq<Entry>, e: Entry, p: string)
    ensures Lists(entries + [e], p) <==> Lists(entries, p) || e.key == p
  {
    var more := entries + [e];
    if i :| 0 <= i < |entries| && entries[i].key == p { assert more[i].key == p; }
    if e.key == p { assert more[|entries|].key == p; }
  }

  lemma RenderAppend(entries: seq<Entry>, c: Counts, paths: set<string>, p: string)
    requires RendersPaths(entries, c, paths) && p in c && p !in paths
    ensures RendersPaths(entries + [Record(c, p)], c, paths + {p})
  {
    assert Record(c, p).key == p;
    hide Lists, Record;
    forall q ensures Lists(entries + [Record(c, p)], q) <==> Lists(entries, q) || p == q {
      ListsAppend(entries, Record(c, p), q);
    }
    forall i | 0 <= i < |entries| ensures entries[i].key != p {}
  }

  lemma RecordReads(c: Counts, p: string)
    requires p in c && c[p] != multiset{} && forall r :: r in c[p] ==> r in RULES
    ensures EntryOk(Record(c, p)) && ToCounter(Record(c, p).counts) == c[p]
  {
    var e := Record(c, p);
    assert e.counts != map[] by {
      var r :| r in c[p];
      assert r in e.counts;
    }
    forall r ensures ToCounter(e.counts)[r] == c[p][r] {}
  }

  lemma ReadAppend(init: seq<Entry>, e: Entry)
    ensures ReadBaseline(init + [e]) ==
            if ReadBaseline(init).None? || !EntryOk(e) then None
            else Some(ReadBaseline(init).value[e.key := ToCounter(e.counts)])
  {
    assert (init + [e])[..|init|] == init;
  }

  lemma WellFormedAt(c: Counts, p: string)
    requires WellFormed(c) && p in c
    ensures c[p] != multiset{} && forall r :: r in c[p] ==> r in RULES
  {}

  /** `d` is `c` restricted to the listed paths. */
  ghost predicate ReadsAs(entries: seq<Entry>, d: Counts, c: Counts) {
    forall p :: (p in d <==> Lists(entries, p)) && (p in d ==> p in c && d[p] == c[p])
  }

  lemma ReadsAsAppend(init: seq<Entry>, e: Entry, d: Counts, c: Counts)
    requires ReadsAs(init, d, c) && e.key in c
    ensures ReadsAs(init + [e], d[e.key := c[e.key]], c)
  {
    hide Lists;
    forall p ensures Lists(init + [e], p) <==> Lists(init, p) || e.key == p { ListsAppend(init, e, p); }
  }

  lemma NothingReads(c: Counts)
    ensures ReadBaseline([]) == Some(map[]) && ReadsAs([], map[], c)
  {}

  lemma {:induction false} RenderReads(entries: seq<Entry>, c: Counts)
    requires WellFormed(c) && AllRecords(entries, c)
    ensures ReadBaseline(entries).Some? && ReadsAs(entries, ReadBaseline(entries).value, c)
    decreases |entries|
  {
    hide Record, EntryOk, ToCounter, WellFormed, ReadsAs, ReadBaseline;
    if entries == [] {
      NothingReads(c);
    } else {
      var init := entries[..|entries| - 1];
      var e := entries[|entries| - 1];
      assert e.key in c && e == Record(c, e.key) && AllRecords(init, c);
      hide AllRecords;
      RenderReads(init, c);
      WellFormedAt(c, e.key);
      RecordReads(c, e.key);
      assert entries == init + [e];
      ReadAppend(init, e);
      ReadsAsAppend(init, e, ReadBaseline(init).value, c);
    }
  }

  /** Writing a baseline and reading it back gives the same counts, exactly for counts a scan can find. */
  lemma RoundTripExactly(entries: seq<Entry>, c: Counts)
    requires Renders(entries, c)
    ensures ReadBaseline(entries) == Some(c) <==> WellFormed(c)
  {
    hide Lists, Record, WellFormed, ReadBaseline;
    if WellFormed(c) {
      RenderReads(entries, c);
      SameMap(ReadBaseline(entries).value, c);
    }
  }

  lemma SameMap(c: Counts, d: Counts)
    requires forall p :: p in c <==> p in d
    requires forall p :: p in c ==> c[p] == d[p]
    ensures c == d
  {}

  // ---------------------------------------------------------------- the command

  datatype Mode = Check | Init | Update(allowAdditions: bool)
  datatype Exit = Pass | Rise | ConfigError | NotConfirmed

  /** The baseline file; a text that is not the JSON of a version-1 baseline is Garbled. */
  datatype File = Missing | Garbled | Text(entries: seq<Entry>)

  /** What the file records, None when it cannot be read. */
  ghost function Recorded(f: File): Option<Counts> {
    if f.Text? then ReadBaseline(f.entries) else None
  }

  /** The file holds exactly these counts. */
  ghost predicate Holds(f: File, c: Counts) {
    f.Text? && Renders(f.entries, c)
  }

  /** What one run of the command does. */
  ghost predicate Outcome(before: File, mode: Mode, tree: Option<Counts>, exit: Exit, after: File) {
    if mode.Init? && before != Missing then exit == ConfigError && after == before
    else if !mode.Init? && before == Missing then exit == Rise && after == before
    else if !mode.Init? && Recorded(before).None? then exit == ConfigError && after == before
    else if tree.None? then exit == NotConfirmed && after == before
    else if mode.Init? then exit == Pass && Holds(after, tree.value)
    else
      var within := AtMost(tree.value, Recorded(before).value);
      if mode.Update? && (within || mode.allowAdditions) then exit == Pass && Holds(after, tree.value)
      else exit == (if within then Pass else Rise) && after == before
  }

  method CounterOf(m: map<string, int>) returns (c: Counter)
    requires forall r :: r in m ==> m[r] > 0
    ensures c == ToCounter(m)
  {
    c := multiset{};
    var todo := m.Keys;
    while todo != {}
      invariant todo <= m.Keys
      invariant forall r :: c[r] == if r in m && r !in todo then m[r] else 0
      decreases todo
    {
      var r :| r in todo;
      c := c[r := m[r]];
      todo := todo - {r};
    }
  }

  method ReadEntries(entries: seq<Entry>) returns (c: Option<Counts>)
    ensures c == ReadBaseline(entries)
  {
    hide EntryOk, ToCounter;
    var out: Counts := map[];
    assert ReadBaseline(entries[..0]) == Some(out);
    hide ReadBaseline;
    NoneLeft(entries);
    for i := 0 to |entries|
      invariant ReadBaseline(entries[..i]) == Some(out)
    {
      ReadAppend(entries[..i], entries[i]);
      assert entries[..i] + [entries[i]] == entries[..i + 1];
      if !EntryOk(entries[i]) {
        ReadStops(entries, i + 1);
        return None;
      }
      EntryPositive(entries[i]);
      var counter := CounterOf(entries[i].counts);
      out := out[entries[i].key := counter];
    }
    c := Some(out);
  }

  lemma EntryPositive(e: Entry)
    requires EntryOk(e)
    ensures forall r :: r in e.counts ==> e.counts[r] > 0
  {}

  /** One refused entry refuses the file. */
  lemma {:induction false} ReadStops(entries: seq<Entry>, i: nat)
    requires i <= |entries| && ReadBaseline(entries[..i]).None?
    ensures ReadBaseline(entries).None?
    decreases |entries|
  {
    hide EntryOk, ToCounter;
    NoneLeft(entries);
    if i < |entries| {
      TakeTake(entries, |entries| - 1, i);
      ReadStops(entries[..|entries| - 1], i);
    }
  }

  class Ratchet {
    var file: File

    /** The text of a baseline, one entry a path. */
    method Write(c: Counts)
      modifies this
      ensures Holds(file, c)
    {
      var entries: seq<Entry> := [];
      var todo := c.Keys;
      ghost var done: set<string> := {};
      while todo != {}
        invariant done !! todo && done + todo == c.Keys
        invariant RendersPaths(entries, c, done)
        decreases todo
      {
        var p :| p in todo;
        RenderAppend(entries, c, done, p);
        entries := entries + [Record(c, p)];
        todo := todo - {p};
        done := done + {p};
      }
      assert done == c.Keys;
      file := Text(entries);
    }

    /** One run in an enabled repository; `tree` is None when the tree cannot be read through. */
    method Run(mode: Mode, tree: Option<Counts>) returns (exit: Exit)
      modifies this
      ensures Outcome(old(file), mode, tree, exit, file)
    {
      var baseline: Counts := map[];
      if mode.Init? {
        if file != Missing { return ConfigError; }
      } else if file == Missing {
        return Rise;
      } else {
        if file.Garbled? { return ConfigError; }
        var read := ReadEntries(file.entries);
        if read.None? { return ConfigError; }
        baseline := read.value;
      }
      if tree.None? { return NotConfirmed; }
      if mode.Init? {
        Write(tree.value);
        return Pass;
      }
      var added, gone := Diff(tree.value, baseline);
      NothingAddedExactly(tree.value, baseline);
      if mode.Update? {
        if added != map[] && !mode.allowAdditions { return Rise; }
        Write(tree.value);
        return Pass;
      }
      return if added != map[] then Rise else Pass;
    }
  }

  // ---------------------------------------------------------------- what a run decides

  /** Some entry has no counts, an unknown rule, or a count that is not positive. */
  ghost predicate BadEntry(e: Entry) {
    e.counts == map[] || exists r :: r in e.counts && (r !in RULES || e.counts[r] <= 0)
  }

  lemma OkIsNotBad(e: Entry)
    ensures EntryOk(e) <==> !BadEntry(e)
  {}

  lemma RefusedStep(init: seq<Entry>, last: Entry)
    ensures ReadBaseline(init + [last]).None? <==> ReadBaseline(init).None? || BadEntry(last)
  {
    hide *;
    ReadAppend(init, last);
    OkIsNotBad(last);
  }

  /** A baseline is refused exactly for such an entry. */
  lemma {:induction false} RefusedExactly(entries: seq<Entry>)
    ensures ReadBaseline(entries).None? <==> exists i :: 0 <= i < |entries| && BadEntry(entries[i])
  {
    hide *;
    if entries == [] {
      NothingReads(map[]);
    } else {
      var init, last := entries[..|entries| - 1], entries[|entries| - 1];
      RefusedExactly(init);
      assert entries == init + [last];
      RefusedStep(init, last);
      if i :| 0 <= i < |init| && BadEntry(init[i]) { assert BadEntry(entries[i]); }
      if i :| 0 <= i < |entries| && BadEntry(entries[i]) { assert i < |init| ==> BadEntry(init[i]); }
    }
  }

  /**
   With a readable baseline and tree: a check passes exactly when no count is above its baseline; so does an
   update, unless additions are allowed, when it always passes; what passes and is no check records the tree, and
   all else leaves the file alone.
   */
  lemma DecidesExactly(before: File, mode: Mode, tree: Counts, exit: Exit, after: File)
    requires Recorded(before).Some? && Outcome(before, mode, Some(tree), exit, after)
    ensures var within := forall p, r :: At(tree, p)[r] <= At(Recorded(before).value, p)[r];
            match mode
            case Check => (exit == Pass <==> within) && (exit == Rise <==> !within) && after == before
            case Update(more) =>
              && (exit == Pass <==> within || more) && (exit == Rise <==> !within && !more)
              && if exit == Pass then Holds(after, tree) else after == before
            case Init => exit == ConfigError && after == before
  {
    hide ReadBaseline, Renders;
  }

  /** Without a readable baseline or tree nothing is written, but for the first baseline. */
  lemma NothingToCompare(before: File, mode: Mode, tree: Option<Counts>, exit: Exit, after: File)
    requires Outcome(before, mode, tree, exit, after) && (Recorded(before).None? || tree.None?)
    ensures before == Missing && mode.Init? && tree.Some? ==> exit == Pass && Holds(after, tree.value)
    ensures !(before == Missing && mode.Init? && tree.Some?) ==> exit != Pass && after == before
  {
    hide ReadBaseline, Renders;
  }

  // ---------------------------------------------------------------- whole histories

  /** An accepted init or update leaves a baseline that the same tree passes, and that records the tree. */
  lemma AcceptedTreeIsClean(before: File, mode: Mode, tree: Counts, after: File, exit: Exit, last: File)
    requires WellFormed(tree) && !mode.Check? && Outcome(before, mode, Some(tree), Pass, after)
    requires Outcome(after, Check, Some(tree), exit, last)
    ensures Recorded(after) == Some(tree) && exit == Pass && last == after
  {
    hide Renders, AtMost;
    RoundTripExactly(after.entries, tree);
    AtMostSelf(tree);
  }

  lemma AtMostSelf(c: Counts)
    ensures AtMost(c, c)
  {}

  lemma AtMostChain(c: Counts, d: Counts, e: Counts)
    requires AtMost(c, d) && AtMost(d, e)
    ensures AtMost(c, e)
  {}

  /** One call: the mode, the tree it saw, how it ended, and the baseline it left. */
  datatype Call = Call(mode: Mode, tree: Option<Counts>, exit: Exit, after: File)

  function FileAfter(start: File, calls: seq<Call>): File {
    if calls == [] then start else calls[|calls| - 1].after
  }

  /** A history of runs from a starting file; between runs the tree changes at will, the file does not. */
  ghost predicate History(start: File, calls: seq<Call>) {
    if calls == [] then true
    else
      var before := calls[..|calls| - 1];
      var last := calls[|calls| - 1];
      && History(start, before)
      && (last.tree.Some? ==> WellFormed(last.tree.value))
      && Outcome(FileAfter(start, before), last.mode, last.tree, last.exit, last.after)
  }

  predicate NoAdditions(calls: seq<Call>) {
    forall i :: 0 <= i < |calls| ==> calls[i].mode != Update(true)
  }

  /** Without `--allow-additions`, no recorded count ever rises, whatever happens to the tree. */
  lemma {:induction false} NeverRises(start: File, calls: seq<Call>)
    requires Recorded(start).Some? && History(start, calls) && NoAdditions(calls)
    ensures Recorded(FileAfter(start, calls)).Some?
    ensures AtMost(Recorded(FileAfter(start, calls)).value, Recorded(start).value)
    decreases |calls|
  {
    hide Recorded, AtMost, Renders;
    if calls == [] {
      AtMostSelf(Recorded(start).value);
    } else {
      var before := calls[..|calls| - 1];
      var last := calls[|calls| - 1];
      NeverRises(start, before);
      StepNeverRises(FileAfter(start, before), last);
      AtMostChain(Recorded(last.after).value, Recorded(FileAfter(start, before)).value, Recorded(start).value);
    }
  }

  lemma StepNeverRises(before: File, call: Call)
    requires Recorded(before).Some? && call.mode != Update(true)
    requires call.tree.Some? ==> WellFormed(call.tree.value)
    requires Outcome(before, call.mode, call.tree, call.exit, call.after)
    ensures Recorded(call.after).Some? && AtMost(Recorded(call.after).value, Recorded(before).value)
  {
    hide AtMost, Renders;
    AtMostSelf(Recorded(before).value);
    if call.after != before { RoundTripExactly(call.after.entries, call.tree.value); }
  }
}
