/**
 The claim walk of the board (src/board_sessions.py): live sessions take their state rows
 in turn, the latest started first, by exact launcher id, else by directory and recency.

 Directories and agents are held in their normalised form; times are seconds, and a start
 or update time that cannot be read is 0, the least.
 */
module ClaimWalk {
  import opened Options
  import opened Seqs
  import opened Sorting

  datatype Session = Session(id: string, agent: string, dir: string, started: nat)
  datatype Row = Row(launcherId: string, agent: string, cwd: string, stamp: nat)

  /** One item of the dictionary of state rows, in insertion order. */
  datatype Keyed = Keyed(sid: string, row: Row)
  type Rows = seq<Keyed>

  /** A session with the row it claimed; `sid` is the row's key. */
  datatype Pair = Pair(session: Session, row: Option<Row>, sid: Option<string>)

  ghost predicate DistinctKeys(rows: Rows) {
    forall i, j :: 0 <= i < j < |rows| ==> rows[i].sid != rows[j].sid
  }

  // ---------------------------------------------------------------- matching one session

  datatype Class = Exact | ByCwd

  predicate Fits(grade: Class, s: Session, k: Keyed) {
    match grade
    case Exact => k.row.launcherId != "" && k.row.launcherId == s.id && k.row.agent == s.agent
    case ByCwd =>
      && k.row.agent == s.agent && k.row.launcherId == ""
      && s.dir != "" && (k.row.cwd == s.dir || s.dir + "/" <= k.row.cwd)
      && k.row.stamp >= s.started
  }

  /** The first row of the newest stamp in a class. */
  function Best(grade: Class, s: Session, rows: Rows): Option<Keyed> {
    if rows == [] then None
    else
      var best := Best(grade, s, rows[..|rows| - 1]);
      var last := rows[|rows| - 1];
      if Fits(grade, s, last) && (best.None? || last.row.stamp > best.value.row.stamp) then Some(last) else best
  }

  /** An exact claim wins; the directory fallback is refused when live sessions share the directory. */
  function Match(s: Session, rows: Rows, ambiguous: bool): Option<Keyed> {
    var exact := Best(Exact, s, rows);
    if exact.Some? then exact else if ambiguous then None else Best(ByCwd, s, rows)
  }

  /** One more row of the scan. */
  lemma BestStep(grade: Class, s: Session, rows: Rows, i: nat)
    requires i < |rows|
    ensures Best(grade, s, rows[..i + 1]) ==
            var best := Best(grade, s, rows[..i]);
            if Fits(grade, s, rows[i]) && (best.None? || rows[i].row.stamp > best.value.row.stamp)
            then Some(rows[i]) else best
  {
    hide Fits;
    TakeTake(rows, i + 1, i);
  }

  lemma BestOfNone(grade: Class, s: Session)
    ensures Best(grade, s, []) == None
  {}

  method MatchStateRow(s: Session, unmatched: Rows, ambiguous: bool) returns (best: Option<Keyed>)
    ensures best == Match(s, unmatched, ambiguous)
  {
    hide Best;
    NoneLeft(unmatched);
    best := None;
    BestOfNone(Exact, s);
    for i := 0 to |unmatched|
      invariant best == Best(Exact, s, unmatched[..i])
    {
      BestStep(Exact, s, unmatched, i);
      var k := unmatched[i];
      if k.row.launcherId != "" && k.row.launcherId == s.id && k.row.agent == s.agent {
        if best.None? || k.row.stamp > best.value.row.stamp { best := Some(k); }
      }
    }
    if best.Some? { return; }
    if ambiguous { return; }
    if s.dir == "" {
      NoDirNoRow(s, unmatched);
      return;
    }
    BestOfNone(ByCwd, s);
    for i := 0 to |unmatched|
      invariant best == Best(ByCwd, s, unmatched[..i])
    {
      BestStep(ByCwd, s, unmatched, i);
      var k := unmatched[i];
      if k.row.agent != s.agent || k.row.launcherId != "" { continue; }
      if k.row.cwd != s.dir && !(s.dir + "/" <= k.row.cwd) { continue; }
      if k.row.stamp < s.started { continue; }
      if best.None? || k.row.stamp > best.value.row.stamp { best := Some(k); }
    }
  }

  lemma {:induction false} NoDirNoRow(s: Session, rows: Rows)
    requires s.dir == ""
    ensures Best(ByCwd, s, rows) == None
  {
    if rows != [] { NoDirNoRow(s, rows[..|rows| - 1]); }
  }

  /** What a class's best row is: a member that fits, none newer, and the first among equals. */
  lemma {:induction false} BestIs(grade: Class, s: Session, rows: Rows)
    ensures Best(grade, s, rows).None? ==> forall k :: k in rows ==> !Fits(grade, s, k)
    ensures Best(grade, s, rows).Some? ==>
              var b := Best(grade, s, rows).value;
              b in rows && Fits(grade, s, b) && forall k :: k in rows && Fits(grade, s, k) ==> k.row.stamp <= b.row.stamp
  {
    hide Fits;
    if rows != [] {
      BestIs(grade, s, rows[..|rows| - 1]);
      forall k ensures k in rows <==> k in rows[..|rows| - 1] || k == rows[|rows| - 1] {
        Split(rows, |rows| - 1);
      }
    }
  }

  /** Among equally new rows the first in the dictionary wins. */
  lemma {:induction false} TieGoesToFirst(grade: Class, s: Session, rows: Rows) returns (i: nat)
    requires Best(grade, s, rows).Some?
    ensures i < |rows| && rows[i] == Best(grade, s, rows).value
    ensures forall j :: 0 <= j < i && Fits(grade, s, rows[j]) ==> rows[j].row.stamp < rows[i].row.stamp
  {
    hide Fits;
    var init := rows[..|rows| - 1];
    if Best(grade, s, init) == Best(grade, s, rows) {
      i := TieGoesToFirst(grade, s, init);
    } else {
      BestIs(grade, s, init);
      i := |rows| - 1;
      assert forall j :: 0 <= j < i ==> rows[j] == init[j];
    }
  }

  /** `path` is the folder `dir` or lies in it: what follows `dir` is nothing or starts a further part. */
  ghost predicate InFolder(path: string, dir: string) {
    exists rest :: path == dir + rest && (rest == "" || rest[0] == '/')
  }

  /** What each class asks of a row; `src2` is not in `src`. */
  lemma FitsExactly(s: Session, k: Keyed)
    ensures Fits(Exact, s, k) <==> s.id != "" && k.row.launcherId == s.id && k.row.agent == s.agent
    ensures Fits(ByCwd, s, k) <==>
            && k.row.launcherId == "" && k.row.agent == s.agent && s.dir != "" && InFolder(k.row.cwd, s.dir)
            && s.started <= k.row.stamp
  {
    var path, dir := k.row.cwd, s.dir;
    if path == dir { assert path == dir + ""; }
    if dir + "/" <= path {
      var rest := path[|dir|..];
      assert path == dir + rest && rest[0] == path[|dir|] == (dir + "/")[|dir|];
    }
    if rest :| path == dir + rest && (rest == "" || rest[0] == '/') {
      NoneLeft(dir);
      if rest != "" { assert path[..|dir| + 1] == dir + "/"; }
    }
  }

  // ---------------------------------------------------------------- the walk

  predicate Newer(a: Session, b: Session) { a.started >= b.started }

  predicate SameGrain(a: Session, b: Session) { a.dir == b.dir && a.agent == b.agent }

  function CountSame(live: seq<Session>, s: Session): nat {
    if live == [] then 0 else (if SameGrain(live[0], s) then 1 else 0) + CountSame(live[1..], s)
  }

  predicate Ambiguous(live: seq<Session>, s: Session) { CountSame(live, s) > 1 }

  lemma {:induction false} CountSameSome(live: seq<Session>, s: Session)
    ensures CountSame(live, s) >= 1 <==> exists i :: 0 <= i < |live| && LivesThere(live[i], s)
  {
    if live != [] { assert SameGrain(live[0], s) <==> LivesThere(live[0], s); }
    hide SameGrain, LivesThere;
    if live != [] {
      CountSameSome(live[1..], s);
      assert forall i :: 1 <= i < |live| ==> live[i] == live[1..][i - 1];
      if i :| 0 <= i < |live[1..]| && LivesThere(live[1..][i], s) { assert LivesThere(live[i + 1], s); }
    }
  }

  predicate LivesThere(a: Session, s: Session) { a.dir == s.dir && a.agent == s.agent }

  /** Two live sessions of the directory and the agent. */
  ghost predicate Shared(live: seq<Session>, s: Session) {
    exists i, j :: 0 <= i < j < |live| && LivesThere(live[i], s) && LivesThere(live[j], s)
  }

  /** The directory is ambiguous exactly when two different sessions of one agent are live in it. */
  lemma {:induction false} AmbiguousExactly(live: seq<Session>, s: Session)
    ensures Ambiguous(live, s) <==> Shared(live, s)
  {
    if live != [] { assert SameGrain(live[0], s) <==> LivesThere(live[0], s); }
    hide SameGrain, LivesThere;
    if live != [] {
      var rest := live[1..];
      AmbiguousExactly(rest, s);
      CountSameSome(rest, s);
      assert forall i :: 1 <= i < |live| ==> live[i] == rest[i - 1];
      if i, j :| 0 <= i < j < |rest| && LivesThere(rest[i], s) && LivesThere(rest[j], s) {
        assert LivesThere(live[i + 1], s) && LivesThere(live[j + 1], s);
      }
      if i :| 0 <= i < |rest| && LivesThere(rest[i], s) { assert LivesThere(live[i + 1], s); }
      if i, j :| 0 <= i < j < |live| && LivesThere(live[i], s) && LivesThere(live[j], s) {
        assert LivesThere(rest[j - 1], s);
      }
    }
  }

  function RemoveKey(rows: Rows, sid: string): (r: Rows)
    ensures forall k :: k in r ==> k in rows
  {
    if rows == [] then []
    else if rows[0].sid == sid then rows[1..]
    else [rows[0]] + RemoveKey(rows[1..], sid)
  }

  /** A session's pair, and the rows left; a row whose key is empty is matched but never taken. */
  function Claim(live: seq<Session>, s: Session, rows: Rows): (Pair, Rows) {
    var m := Match(s, rows, Ambiguous(live, s));
    if m.None? then (Pair(s, None, None), rows)
    else if m.value.sid == "" then (Pair(s, None, Some("")), rows)
    else (Pair(s, Some(m.value.row), Some(m.value.sid)), RemoveKey(rows, m.value.sid))
  }

  /** The walk over sessions already in claim order. */
  function Walk(live: seq<Session>, order: seq<Session>, rows: Rows): (seq<Pair>, Rows)
    decreases |order|
  {
    if order == [] then ([], rows)
    else
      var (pair, rest) := Claim(live, order[0], rows);
      var (pairs, leftovers) := Walk(live, order[1..], rest);
      ([pair] + pairs, leftovers)
  }

  method ClaimAll(live: seq<Session>, rows: Rows) returns (pairs: seq<Pair>, unmatched: Rows)
    ensures (pairs, unmatched) == Walk(live, Sort(Newer, live), rows)
  {
    hide Match;
    unmatched := rows;
    pairs := [];
    var order := Sort(Newer, live);
    NoneLeft(order);
    NoneLeft(Walk(live, order, rows).0);
    for i := 0 to |order|
      invariant Walk(live, order, rows) ==
                (pairs + Walk(live, order[i..], unmatched).0, Walk(live, order[i..], unmatched).1)
    {
      DropDrop(order, i, 1);
      var s := order[i];
      var m := MatchStateRow(s, unmatched, CountSame(live, s) > 1);
      ghost var (pair, rest) := Claim(live, s, unmatched);
      Assoc(pairs, [pair], Walk(live, order[i + 1..], rest).0);
      if m.None? {
        pairs := pairs + [Pair(s, None, None)];
      } else if m.value.sid == "" {
        pairs := pairs + [Pair(s, None, Some(""))];
      } else {
        pairs := pairs + [Pair(s, Some(m.value.row), Some(m.value.sid))];
        unmatched := RemoveKey(unmatched, m.value.sid);
      }
    }
    NoneLeft(pairs);
  }

  // ---------------------------------------------------------------- nothing lost, nothing shared

  function Sessions(pairs: seq<Pair>): seq<Session> {
    if pairs == [] then [] else [pairs[0].session] + Sessions(pairs[1..])
  }

  /** The rows taken by the pairs, each under its key. */
  function Claimed(pairs: seq<Pair>): Rows {
    if pairs == [] then []
    else
      var p := pairs[0];
      (if p.row.Some? && p.sid.Some? then [Keyed(p.sid.value, p.row.value)] else []) + Claimed(pairs[1..])
  }

  lemma MatchIs(s: Session, rows: Rows, ambiguous: bool)
    ensures Match(s, rows, ambiguous).Some? ==> Match(s, rows, ambiguous).value in rows
  {
    BestIs(Exact, s, rows);
    BestIs(ByCwd, s, rows);
  }

  lemma {:induction false} RemoveKeyTakes(rows: Rows, k: Keyed)
    requires DistinctKeys(rows) && k in rows
    ensures multiset(RemoveKey(rows, k.sid)) == multiset(rows) - multiset{k}
  {
    HeadTail(rows);
    ConsPermutes(rows[0], rows[1..]);
    if rows[0].sid == k.sid {
      assert rows[0] == k;
    } else {
      hide DistinctKeys;
      TailDistinct(rows);
      assert k in rows[1..];
      RemoveKeyTakes(rows[1..], k);
      ConsPermutes(rows[0], RemoveKey(rows[1..], k.sid));
    }
  }

  lemma TailDistinct(rows: Rows)
    requires DistinctKeys(rows) && rows != []
    ensures DistinctKeys(rows[1..]) && forall k :: k in rows[1..] ==> k.sid != rows[0].sid
  {}

  lemma ConsDistinct(k: Keyed, rows: Rows)
    requires DistinctKeys(rows) && forall r :: r in rows ==> r.sid != k.sid
    ensures DistinctKeys([k] + rows)
  {}

  lemma {:induction false} RemoveKeyDistinct(rows: Rows, sid: string)
    requires DistinctKeys(rows)
    ensures DistinctKeys(RemoveKey(rows, sid))
  {
    hide DistinctKeys;
    if rows != [] {
      TailDistinct(rows);
      if rows[0].sid != sid {
        RemoveKeyDistinct(rows[1..], sid);
        ConsDistinct(rows[0], RemoveKey(rows[1..], sid));
      }
    }
  }

  /** A claim hands out one row, under its own key, and leaves the rest. */
  lemma ClaimIs(live: seq<Session>, s: Session, rows: Rows)
    requires DistinctKeys(rows)
    ensures var (pair, rest) := Claim(live, s, rows);
            && pair.session == s && DistinctKeys(rest) && (forall r :: r in rest ==> r in rows)
            && multiset(Claimed([pair])) + multiset(rest) == multiset(rows)
  {
    hide Match, Ambiguous, DistinctKeys, Claimed;
    var m := Match(s, rows, Ambiguous(live, s));
    var (pair, rest) := Claim(live, s, rows);
    MatchIs(s, rows, Ambiguous(live, s));
    ClaimedOne(pair);
    if m.Some? && m.value.sid != "" {
      RemoveKeyDistinct(rows, m.value.sid);
      TakenBack(rows, m.value);
    }
  }

  lemma TakenBack(rows: Rows, k: Keyed)
    requires DistinctKeys(rows) && k in rows
    ensures multiset([k]) + multiset(RemoveKey(rows, k.sid)) == multiset(rows)
  {
    RemoveKeyTakes(rows, k);
    assert k in multiset(rows);
  }

  lemma ClaimedOne(pair: Pair)
    ensures Claimed([pair]) == if pair.row.Some? && pair.sid.Some? then [Keyed(pair.sid.value, pair.row.value)] else []
  {
    assert [pair][1..] == [] && Claimed([]) == [];
  }

  lemma ClaimedCons(pair: Pair, pairs: seq<Pair>)
    ensures multiset(Claimed([pair] + pairs)) == multiset(Claimed([pair])) + multiset(Claimed(pairs))
    ensures Sessions([pair] + pairs) == [pair.session] + Sessions(pairs)
  {
    assert ([pair] + pairs)[1..] == pairs;
    assert [pair][1..] == [] && Claimed([]) == [];
    NoneLeft(Claimed([pair]));
  }

  lemma {:induction false} WalkPartitions(live: seq<Session>, order: seq<Session>, rows: Rows)
    requires DistinctKeys(rows)
    ensures var (pairs, leftovers) := Walk(live, order, rows);
            Sessions(pairs) == order && multiset(Claimed(pairs)) + multiset(leftovers) == multiset(rows)
    decreases |order|
  {
    hide Claim, Claimed, Sessions, DistinctKeys;
    if order == [] {
      assert Claimed([]) == [] && Sessions([]) == [] by { NothingClaimed(); }
    } else {
      var (pair, rest) := Claim(live, order[0], rows);
      ClaimIs(live, order[0], rows);
      ClaimedCons(pair, Walk(live, order[1..], rest).0);
      WalkPartitions(live, order[1..], rest);
      HeadTail(order);
    }
  }

  lemma NothingClaimed()
    ensures Claimed([]) == [] && Sessions([]) == []
  {}

  /** Every live session appears exactly once; claimed rows and leftovers together are the state rows. */
  lemma NothingLost(live: seq<Session>, rows: Rows)
    requires DistinctKeys(rows)
    ensures var (pairs, leftovers) := Walk(live, Sort(Newer, live), rows);
            && multiset(Sessions(pairs)) == multiset(live)
            && multiset(Claimed(pairs)) + multiset(leftovers) == multiset(rows)
  {
    WalkPartitions(live, Sort(Newer, live), rows);
    SortPermutes(Newer, live);
  }

  // ---------------------------------------------------------------- stability

  /** A row the session may claim, and how good it is. */
  predicate Eligible(live: seq<Session>, s: Session, k: Keyed) {
    Fits(Exact, s, k) || (!Ambiguous(live, s) && Fits(ByCwd, s, k))
  }

  /** The session would rather have `k` than what it got: exact before directory, then the newer stamp. */
  predicate Prefers(live: seq<Session>, s: Session, k: Keyed, own: Option<Keyed>) {
    && Eligible(live, s, k)
    && (own.None?
        || (Fits(Exact, s, k) && !Fits(Exact, s, own.value))
        || (Fits(Exact, s, k) == Fits(Exact, s, own.value) && k.row.stamp > own.value.row.stamp))
  }

  /** What the session claimed, looked up by its key. */
  function Own(rows: Rows, pair: Pair): Option<Keyed> {
    if pair.sid.None? then None else Lookup(rows, pair.sid.value)
  }

  function Lookup(rows: Rows, sid: string): Option<Keyed> {
    if rows == [] then None else if rows[0].sid == sid then Some(rows[0]) else Lookup(rows[1..], sid)
  }

  lemma {:induction false} LookupIs(rows: Rows, k: Keyed)
    requires DistinctKeys(rows) && k in rows
    ensures Lookup(rows, k.sid) == Some(k)
  {
    if rows[0].sid == k.sid {
      assert rows[0] == k;
    } else {
      assert k in rows[1..];
      LookupIs(rows[1..], k);
    }
  }

  lemma MatchBest(live: seq<Session>, s: Session, rows: Rows, k: Keyed)
    requires k in rows
    ensures !Prefers(live, s, k, Match(s, rows, Ambiguous(live, s)))
    ensures var m := Match(s, rows, Ambiguous(live, s)); m.Some? ==> Eligible(live, s, m.value)
  {
    hide Ambiguous;
    BestIs(Exact, s, rows);
    BestIs(ByCwd, s, rows);
  }

  /**
   No session prefers a row that is left over, or that a session processed after it holds.  `all` is the whole
   dictionary, from which the rows still unclaimed were taken.
   */
  lemma {:induction false} WalkStable(live: seq<Session>, order: seq<Session>, rows: Rows, all: Rows, i: nat, k: Keyed)
    requires DistinctKeys(rows) && DistinctKeys(all) && (forall r :: r in rows ==> r in all)
    requires i < |order|
    requires var (pairs, leftovers) := Walk(live, order, rows);
             |pairs| == |order| && (k in leftovers || k in Claimed(pairs[i + 1..]))
    ensures var pairs := Walk(live, order, rows).0;
            pairs[i].session == order[i] && !Prefers(live, order[i], k, Own(all, pairs[i]))
    ensures var pairs := Walk(live, order, rows).0;
            Own(all, pairs[i]).Some? ==> Eligible(live, order[i], Own(all, pairs[i]).value)
    decreases |order|
  {
    hide Claim, Own, Ambiguous, DistinctKeys, Prefers, Eligible, Claimed;
    var (pair, rest) := Claim(live, order[0], rows);
    var (pairs, leftovers) := Walk(live, order[1..], rest);
    var whole := [pair] + pairs;
    assert whole[1..] == pairs;
    ClaimIs(live, order[0], rows);
    WalkPartitions(live, order[1..], rest);
    SessionsLength(pairs);
    if i == 0 {
      assert k in multiset(rest);
      OwnIsMatch(live, order[0], rows, all);
      MatchBest(live, order[0], rows, k);
    } else {
      DropDrop(whole, 1, i);
      WalkStable(live, order[1..], rest, all, i - 1, k);
    }
  }

  lemma OwnIsMatch(live: seq<Session>, s: Session, rows: Rows, all: Rows)
    requires DistinctKeys(all) && forall r :: r in rows ==> r in all
    ensures Own(all, Claim(live, s, rows).0) == Match(s, rows, Ambiguous(live, s))
  {
    hide Match, Ambiguous, DistinctKeys, Lookup;
    var m := Match(s, rows, Ambiguous(live, s));
    MatchIs(s, rows, Ambiguous(live, s));
    if m.Some? { LookupIs(all, m.value); }
  }

  lemma {:induction false} SessionsLength(pairs: seq<Pair>)
    ensures |Sessions(pairs)| == |pairs|
    ensures forall i :: 0 <= i < |pairs| ==> Sessions(pairs)[i] == pairs[i].session
  {
    if pairs != [] { SessionsLength(pairs[1..]); }
  }

  /** The claim is stable. */
  lemma Stable(live: seq<Session>, rows: Rows)
    requires DistinctKeys(rows)
    ensures var (pairs, leftovers) := Walk(live, Sort(Newer, live), rows);
            forall i, k :: 0 <= i < |pairs| && (k in leftovers || k in Claimed(pairs[i + 1..])) ==>
              !Prefers(live, pairs[i].session, k, Own(rows, pairs[i]))
  {
    hide Prefers, Own, DistinctKeys;
    var order := Sort(Newer, live);
    var (pairs, leftovers) := Walk(live, order, rows);
    WalkPartitions(live, order, rows);
    SessionsLength(pairs);
    forall i, k | 0 <= i < |pairs| && (k in leftovers || k in Claimed(pairs[i + 1..]))
      ensures !Prefers(live, pairs[i].session, k, Own(rows, pairs[i]))
    {
      WalkStable(live, order, rows, rows, i, k);
    }
  }

  /** The later a session started, the earlier it claims. */
  lemma LatestFirst(live: seq<Session>, rows: Rows)
    requires DistinctKeys(rows)
    ensures var pairs := Walk(live, Sort(Newer, live), rows).0;
            forall i, j :: 0 <= i < j < |pairs| ==> pairs[i].session.started >= pairs[j].session.started
  {
    hide DistinctKeys, Claim;
    var order := Sort(Newer, live);
    WalkPartitions(live, order, rows);
    SessionsLength(Walk(live, order, rows).0);
    SortSorted(Newer, live);
  }

  /** A row is only ever claimed by a session it is eligible for, and the time guard holds for directory claims. */
  lemma ClaimsEligible(live: seq<Session>, rows: Rows, s: Session)
    ensures var m := Match(s, rows, Ambiguous(live, s));
            m.Some? && !Fits(Exact, s, m.value) ==>
              !Ambiguous(live, s) && m.value.row.launcherId == "" && m.value.row.stamp >= s.started
  {
    hide Ambiguous;
    BestIs(Exact, s, rows);
    BestIs(ByCwd, s, rows);
  }

  lemma {:induction false} RemoveKeyKeeps(rows: Rows, sid: string, k: Keyed)
    requires k in rows && k.sid != sid
    ensures k in RemoveKey(rows, sid)
  {
    HeadTail(rows);
    if rows[0].sid != sid && k != rows[0] { RemoveKeyKeeps(rows[1..], sid, k); }
  }

  /** A row under an empty key is never taken, whoever it matches. */
  lemma {:induction false} EmptyKeyStays(live: seq<Session>, order: seq<Session>, rows: Rows, k: Keyed)
    requires k in rows && k.sid == ""
    ensures k in Walk(live, order, rows).1
    decreases |order|
  {
    hide Match, Ambiguous;
    if order != [] {
      var m := Match(order[0], rows, Ambiguous(live, order[0]));
      if m.Some? && m.value.sid != "" { RemoveKeyKeeps(rows, m.value.sid, k); }
      EmptyKeyStays(live, order[1..], Claim(live, order[0], rows).1, k);
    }
  }

  // ---------------------------------------------------------------- order independence

  /** No two rows were written at the same time. */
  ghost predicate DistinctStamps(rows: Rows) {
    forall a, b :: a in rows && b in rows && a.row.stamp == b.row.stamp ==> a == b
  }

  lemma BestIgnoresOrder(grade: Class, s: Session, rows: Rows, other: Rows)
    requires multiset(rows) == multiset(other) && DistinctStamps(rows)
    ensures Best(grade, s, rows) == Best(grade, s, other)
  {
    hide Fits;
    BestIs(grade, s, rows);
    BestIs(grade, s, other);
    forall k ensures k in rows <==> k in other {
      assert k in multiset(rows) <==> k in multiset(other);
    }
  }

  lemma {:induction false} WalkIgnoresRowOrder(live: seq<Session>, order: seq<Session>, rows: Rows, other: Rows)
    requires DistinctKeys(rows) && DistinctKeys(other) && DistinctStamps(rows) && multiset(rows) == multiset(other)
    ensures Walk(live, order, rows).0 == Walk(live, order, other).0
    ensures multiset(Walk(live, order, rows).1) == multiset(Walk(live, order, other).1)
    decreases |order|
  {
    hide DistinctKeys, Ambiguous, Best;
    if order != [] {
      var s := order[0];
      var m := Match(s, rows, Ambiguous(live, s));
      BestIgnoresOrder(Exact, s, rows, other);
      BestIgnoresOrder(ByCwd, s, rows, other);
      MatchIs(s, rows, Ambiguous(live, s));
      MatchIs(s, other, Ambiguous(live, s));
      if m.Some? && m.value.sid != "" {
        RemoveKeyTakes(rows, m.value);
        RemoveKeyTakes(other, m.value);
        RemoveKeyDistinct(rows, m.value.sid);
        RemoveKeyDistinct(other, m.value.sid);
      }
      WalkIgnoresRowOrder(live, order[1..], Claim(live, s, rows).1, Claim(live, s, other).1);
    }
  }

  lemma {:induction false} CountSameSort(live: seq<Session>, s: Session)
    ensures CountSame(Sort(Newer, live), s) == CountSame(live, s)
  {
    if live != [] {
      CountSameSort(live[1..], s);
      CountSameInsert(live[0], Sort(Newer, live[1..]), s);
    }
  }

  lemma {:induction false} CountSameInsert(x: Session, live: seq<Session>, s: Session)
    ensures CountSame(Insert(Newer, x, live), s) == CountSame(live, s) + if SameGrain(x, s) then 1 else 0
  {
    hide SameGrain;
    assert ([x] + live)[1..] == live;
    if live != [] && !Newer(x, live[0]) {
      CountSameInsert(x, live[1..], s);
      var rest := Insert(Newer, x, live[1..]);
      assert Insert(Newer, x, live) == [live[0]] + rest;
      assert ([live[0]] + rest)[1..] == rest;
    }
  }

  /** Who shares a directory is counted over the whole live list, so only its members matter. */
  lemma {:induction false} WalkIgnoresLiveOrder(live: seq<Session>, others: seq<Session>, order: seq<Session>, rows: Rows)
    requires Sort(Newer, live) == Sort(Newer, others)
    ensures Walk(live, order, rows) == Walk(others, order, rows)
    decreases |order|
  {
    hide Match;
    if order != [] {
      CountSameSort(live, order[0]);
      CountSameSort(others, order[0]);
      WalkIgnoresLiveOrder(live, others, order[1..], Claim(live, order[0], rows).1);
    }
  }

  /** The result does not depend on the order of the sessions or of the rows, given distinct start and update times. */
  lemma OrderIndependent(live: seq<Session>, others: seq<Session>, rows: Rows, other: Rows)
    requires multiset(live) == multiset(others) && Distinguishes(Newer, live)
    requires DistinctKeys(rows) && DistinctKeys(other) && DistinctStamps(rows) && multiset(rows) == multiset(other)
    ensures Walk(live, Sort(Newer, live), rows).0 == Walk(others, Sort(Newer, others), other).0
    ensures multiset(Walk(live, Sort(Newer, live), rows).1) == multiset(Walk(others, Sort(Newer, others), other).1)
  {
    SortIgnoresOrder(Newer, live, others);
    WalkIgnoresRowOrder(live, Sort(Newer, live), rows, other);
    WalkIgnoresLiveOrder(live, others, Sort(Newer, others), other);
  }
}
