/**
 What the login lock-out promises over whole runs: the bounded table refines each
 client's own history, the guess rate is bounded, and the alerts balance.
 */
module LockoutRuns {
  import opened Options
  import opened Seqs
  import opened LoginLockout

  /** One call, with the clock reading it makes. */
  datatype Event = Ask(key: string, at: real) | Failure(key: string, at: real) | Success(key: string, at: real)

  function Step(cfg: ValidConfig, s: State, e: Event): State {
    match e
    case Ask(key, at) => s.(table := DropKey(cfg, s.table, key, at))
    case Failure(key, at) => AfterFailure(cfg, s, key, at)
    case Success(key, _) => s.(table := Remove(s.table, key))
  }

  function Run(cfg: ValidConfig, es: seq<Event>): State {
    if es == [] then START else Step(cfg, Run(cfg, es[..|es| - 1]), es[|es| - 1])
  }

  /** The clock never goes back. */
  predicate Monotone(es: seq<Event>) {
    |es| <= 1 || (es[|es| - 2].at <= es[|es| - 1].at && Monotone(es[..|es| - 1]))
  }

  /** `now` is a clock reading after the run. */
  predicate AfterRun(es: seq<Event>, now: real) {
    Monotone(es) && (es != [] ==> es[|es| - 1].at <= now)
  }

  // ---------------------------------------------------------------- the table over a run

  predicate StreakOk(cfg: ValidConfig, streak: Streak, now: real) {
    && streak.failures >= 1 && streak.lastFailure <= now
    && streak.deadline == streak.lastFailure + Delay(cfg, streak.failures)
    && streak.alerted == (cfg.hasAlert && streak.failures >= cfg.alertAfter)
  }

  /** Distinct keys, oldest failure first, every streak consistent. */
  predicate TableOk(cfg: ValidConfig, t: Table, now: real) {
    && (forall i :: 0 <= i < |t| ==> StreakOk(cfg, t[i].streak, now))
    && DistinctKeys(t)
    && (forall i, j :: 0 <= i < j < |t| ==> t[i].streak.lastFailure <= t[j].streak.lastFailure)
  }

  lemma {:induction false} FindSome(t: Table, key: string)
    ensures Find(t, key).Some? ==> exists i :: 0 <= i < |t| && t[i] == Entry(key, Find(t, key).value)
    ensures Find(t, key).None? ==> forall i :: 0 <= i < |t| ==> t[i].key != key
  {
    if t != [] && t[0].key != key {
      FindSome(t[1..], key);
      if Find(t, key).Some? {
        var i :| 0 <= i < |t[1..]| && t[1..][i] == Entry(key, Find(t, key).value);
        assert t[i + 1] == t[1..][i];
      }
    }
  }

  lemma {:induction false} FindAppend(t: Table, e: Entry, key: string)
    ensures Find(t + [e], key) ==
            if Find(t, key).Some? then Find(t, key) else if e.key == key then Some(e.streak) else None
  {
    if t != [] {
      ConcatLeft(t, [e], 1);
      FindAppend(t[1..], e, key);
    }
  }

  /** Removing one key keeps the table's order and every other entry. */
  lemma RemoveOk(cfg: ValidConfig, t: Table, key: string, now: real)
    requires TableOk(cfg, t, now)
    ensures TableOk(cfg, Remove(t, key), now)
    ensures |Remove(t, key)| == if Find(t, key).Some? then |t| - 1 else |t|
    ensures forall i :: 0 <= i < |Remove(t, key)| ==> Remove(t, key)[i].key != key && Remove(t, key)[i] in t
    ensures forall k :: Find(Remove(t, key), k) == if k == key then None else Find(t, k)
  {
    hide StreakOk, Find, Remove;
    var i := RemoveAt(t, key);
    forall k { RemoveFind(t, key, k); }
    FindNone(t, key);
    FindNone(Remove(t, key), key);
    if Find(t, key).Some? {
      var r := t[..i] + t[i + 1..];
      assert forall j :: 0 <= j < |r| ==> r[j] == t[if j < i then j else j + 1];
    }
  }

  lemma FrontOk(cfg: ValidConfig, t: Table, now: real)
    requires TableOk(cfg, t, now) && t != []
    ensures TableOk(cfg, t[1..], now)
    ensures forall k :: Find(t[1..], k) == if k == t[0].key then None else Find(t, k)
  {
    hide StreakOk;
    FindSome(t[1..], t[0].key);
  }

  /** The order by last failure makes dropping from the front drop every forgotten client. */
  lemma {:induction false} DropExpiredOk(cfg: ValidConfig, t: Table, now: real)
    requires TableOk(cfg, t, now)
    ensures TableOk(cfg, DropExpired(cfg, t, now), now)
    ensures forall k :: Find(DropExpired(cfg, t, now), k) == Live(cfg, t, k, now)
  {
    hide StreakOk;
    if t != [] && Expired(cfg, t[0].streak, now) {
      FrontOk(cfg, t, now);
      DropExpiredOk(cfg, t[1..], now);
    } else {
      forall k ensures Find(t, k) == Live(cfg, t, k, now) { FindSome(t, k); }
    }
  }

  lemma DropKeyOk(cfg: ValidConfig, t: Table, key: string, now: real)
    requires TableOk(cfg, t, now)
    ensures TableOk(cfg, DropKey(cfg, t, key, now), now)
    ensures |DropKey(cfg, t, key, now)| <= |t|
    ensures forall k :: Find(DropKey(cfg, t, key, now), k) == if k == key then Live(cfg, t, key, now) else Find(t, k)
  {
    hide TableOk, Find;
    RemoveOk(cfg, t, key, now);
  }

  /** The client pushed out by a failure of `key`: its streak was still running. */
  function Victim(cfg: ValidConfig, t: Table, key: string, now: real): Option<string> {
    var kept := DropExpired(cfg, DropKey(cfg, t, key, now), now);
    if Live(cfg, t, key, now).None? && |kept| >= cfg.maxClients then Some(kept[0].key) else None
  }

  /** What one failure does to the table, entry by entry. */
  lemma FailureTableOk(cfg: ValidConfig, s: State, key: string, now: real)
    requires TableOk(cfg, s.table, now) && |s.table| <= cfg.maxClients
    ensures TableOk(cfg, FailureTable(cfg, s, key, now), now)
    ensures |FailureTable(cfg, s, key, now)| <= cfg.maxClients
    ensures forall k :: Find(FailureTable(cfg, s, key, now), k) ==
              if k == key then
                var counted := Count(cfg, Live(cfg, s.table, key, now), now);
                Some(counted.(alerted := counted.alerted || AlertDue(cfg, counted)))
              else if Live(cfg, s.table, key, now).Some? then Find(s.table, k)
              else if Victim(cfg, s.table, key, now) == Some(k) then None
              else Live(cfg, s.table, k, now)
  {
    hide TableOk, Find, Delay, DropExpired;
    var live := Live(cfg, s.table, key, now);
    var t := DropKey(cfg, s.table, key, now);
    DropKeyOk(cfg, s.table, key, now);
    RemoveOk(cfg, t, key, now);
    DropExpiredOk(cfg, t, now);
    var kept := DropExpired(cfg, t, now);
    if |kept| >= cfg.maxClients { FrontOk(cfg, kept, now); }
    var others := if live.Some? then Remove(t, key) else MakeRoom(cfg, t, now);
    var counted := Count(cfg, live, now);
    var entry := Entry(key, counted.(alerted := counted.alerted || AlertDue(cfg, counted)));
    forall k ensures Find(others + [entry], k) ==
        if Find(others, k).Some? then Find(others, k) else if k == key then Some(entry.streak) else None {
      FindAppend(others, entry, k);
    }
    assert StreakOk(cfg, entry.streak, now) by { FindOk(cfg, s.table, key, now); }
    FindSome(others, key);
    AppendOk(cfg, others, entry, now);
  }

  lemma FindOk(cfg: ValidConfig, t: Table, key: string, now: real)
    requires TableOk(cfg, t, now)
    ensures Find(t, key).Some? ==> StreakOk(cfg, Find(t, key).value, now)
  {
    hide Find;
    FindSome(t, key);
  }

  lemma AppendOk(cfg: ValidConfig, t: Table, e: Entry, now: real)
    requires TableOk(cfg, t, now) && StreakOk(cfg, e.streak, now) && e.streak.lastFailure == now
    requires forall i :: 0 <= i < |t| ==> t[i].key != e.key
    ensures TableOk(cfg, t + [e], now)
  {
    hide Delay;
  }

  /** How many clients have a streak that is not forgotten. */
  function LiveClients(cfg: ValidConfig, t: Table, now: real): nat {
    if t == [] then 0 else (if Expired(cfg, t[0].streak, now) then 0 else 1) + LiveClients(cfg, t[1..], now)
  }

  lemma {:induction false} AllLive(cfg: ValidConfig, t: Table, now: real)
    requires forall i :: 0 <= i < |t| ==> !Expired(cfg, t[i].streak, now)
    ensures LiveClients(cfg, t, now) == |t|
  {
    if t != [] { AllLive(cfg, t[1..], now); }
  }

  lemma {:induction false} LiveAreKept(cfg: ValidConfig, t: Table, now: real)
    requires TableOk(cfg, t, now)
    ensures LiveClients(cfg, t, now) == |DropExpired(cfg, t, now)|
  {
    hide StreakOk;
    if t != [] && Expired(cfg, t[0].streak, now) {
      FrontOk(cfg, t, now);
      LiveAreKept(cfg, t[1..], now);
    } else {
      AllLive(cfg, t, now);
    }
  }

  lemma {:induction false} LiveAfterRemove(cfg: ValidConfig, t: Table, key: string, now: real)
    requires Find(t, key).Some? && Expired(cfg, Find(t, key).value, now)
    ensures LiveClients(cfg, Remove(t, key), now) == LiveClients(cfg, t, now)
  {
    if t[0].key != key {
      LiveAfterRemove(cfg, t[1..], key, now);
      assert ([t[0]] + Remove(t[1..], key))[1..] == Remove(t[1..], key);
    }
  }

  lemma FrontIsOldest(cfg: ValidConfig, t: Table, k: string, now: real)
    requires TableOk(cfg, t, now) && t != []
    ensures Find(t, t[0].key) == Some(t[0].streak)
    ensures Find(t, k).Some? ==> Find(t, k).value.lastFailure >= t[0].streak.lastFailure
  {
    hide StreakOk;
    FindSome(t, k);
  }

  /**
   A client is pushed out exactly when a new one comes and the table is full of running streaks, and then it is
   one whose last failure is longest ago.
   */
  lemma VictimExactly(cfg: ValidConfig, t: Table, key: string, now: real)
    requires TableOk(cfg, t, now)
    ensures Victim(cfg, t, key, now).Some? <==>
            Live(cfg, t, key, now).None? && LiveClients(cfg, t, now) >= cfg.maxClients
    ensures Victim(cfg, t, key, now).Some? ==>
              var oldest := Live(cfg, t, Victim(cfg, t, key, now).value, now);
              oldest.Some? && forall k :: Live(cfg, t, k, now).Some? ==>
                oldest.value.lastFailure <= Live(cfg, t, k, now).value.lastFailure
  {
    hide TableOk, Find, DropExpired;
    var dropped := DropKey(cfg, t, key, now);
    var kept := DropExpired(cfg, dropped, now);
    DropKeyOk(cfg, t, key, now);
    DropExpiredOk(cfg, dropped, now);
    LiveAreKept(cfg, dropped, now);
    if Find(t, key).Some? && Expired(cfg, Find(t, key).value, now) { LiveAfterRemove(cfg, t, key, now); }
    if Victim(cfg, t, key, now).Some? {
      var oldest := kept[0].key;
      forall k | Live(cfg, t, k, now).Some?
        ensures Find(kept, k) == Live(cfg, t, k, now) && Find(kept, oldest) == Some(kept[0].streak)
        ensures kept[0].streak.lastFailure <= Live(cfg, t, k, now).value.lastFailure
      {
        FrontIsOldest(cfg, kept, k, now);
      }
      FrontIsOldest(cfg, kept, oldest, now);
    }
  }

  predicate StateOk(cfg: ValidConfig, s: State, now: real) {
    TableOk(cfg, s.table, now) && |s.table| <= cfg.maxClients
  }

  lemma StartOk(cfg: ValidConfig, now: real)
    ensures StateOk(cfg, START, now)
  {}

  lemma LaterOk(cfg: ValidConfig, s: State, now: real, later: real)
    requires StateOk(cfg, s, now) && now <= later
    ensures StateOk(cfg, s, later)
  {
    hide Delay;
  }

  lemma StepOk(cfg: ValidConfig, s: State, e: Event)
    requires StateOk(cfg, s, e.at)
    ensures StateOk(cfg, Step(cfg, s, e), e.at)
  {
    hide TableOk, Find, FailureTable;
    match e {
      case Ask(key, at) => DropKeyOk(cfg, s.table, key, at);
      case Failure(key, at) => FailureTableOk(cfg, s, key, at);
      case Success(key, at) => RemoveOk(cfg, s.table, key, at);
    }
  }

  /** Every reachable table is within its bound, has distinct keys and is sorted by last failure. */
  lemma {:induction false} RunOk(cfg: ValidConfig, es: seq<Event>, now: real)
    requires AfterRun(es, now)
    ensures StateOk(cfg, Run(cfg, es), now)
    decreases |es|
  {
    hide StateOk, Step;
    if es == [] {
      StartOk(cfg, now);
    } else {
      var before := es[..|es| - 1];
      var e := es[|es| - 1];
      RunOk(cfg, before, e.at);
      StepOk(cfg, Run(cfg, before), e);
      LaterOk(cfg, Run(cfg, es), e.at, now);
    }
  }

  // ---------------------------------------------------------------- each client's own history

  /** Failure times of the streak a client would have in an unbounded table. */
  function History(cfg: ValidConfig, es: seq<Event>, key: string): seq<real> {
    if es == [] then []
    else
      var h := History(cfg, es[..|es| - 1], key);
      match es[|es| - 1]
      case Failure(k, at) => if k != key then h else if Running(cfg, h, at) then h + [at] else [at]
      case Success(k, _) => if k == key then [] else h
      case Ask(_, _) => h
  }

  predicate Running(cfg: ValidConfig, h: seq<real>, now: real) {
    h != [] && now - h[|h| - 1] < cfg.forget
  }

  /** The wait that history calls for, forgetting left out. */
  function Wait(cfg: ValidConfig, h: seq<real>, now: real): real {
    if h == [] then 0.0 else Max0(h[|h| - 1] + Delay(cfg, |h|) - now)
  }

  /** The client's running streak has been pushed out by others to bound the table. */
  predicate Evicted(cfg: ValidConfig, es: seq<Event>, key: string) {
    if es == [] then false
    else
      var before := es[..|es| - 1];
      var h := History(cfg, before, key);
      match es[|es| - 1]
      case Failure(k, at) =>
        if k == key then Evicted(cfg, before, key) && Running(cfg, h, at)
        else Evicted(cfg, before, key) ||
             (Running(cfg, h, at) && Victim(cfg, Run(cfg, before).table, k, at) == Some(key))
      case Success(k, _) => k != key && Evicted(cfg, before, key)
      case Ask(_, _) => Evicted(cfg, before, key)
  }

  /** The table's entry is the history's, or, once evicted, a part of it. */
  predicate Agrees(cfg: ValidConfig, t: Table, key: string, h: seq<real>, now: real, evicted: bool) {
    var found := Find(t, key);
    && (found.Some? ==> h != [] && found.value.lastFailure == h[|h| - 1] && found.value.failures <= |h|)
    && (!evicted && found.Some? ==> found.value.failures == |h|)
    && (!evicted && Running(cfg, h, now) ==> found.Some?)
  }

  lemma {:induction false} TableAgrees(cfg: ValidConfig, es: seq<Event>, key: string, now: real)
    requires AfterRun(es, now)
    ensures Agrees(cfg, Run(cfg, es).table, key, History(cfg, es, key), now, Evicted(cfg, es, key))
    decreases |es|
  {
    if es != [] {
      var before := es[..|es| - 1];
      var e := es[|es| - 1];
      TableAgrees(cfg, before, key, e.at);
      RunOk(cfg, before, e.at);
      StepAgrees(cfg, Run(cfg, before), e, key, History(cfg, before, key), now, Evicted(cfg, before, key));
    }
  }

  lemma StepAgrees(cfg: ValidConfig, s: State, e: Event, key: string, h: seq<real>, now: real, evicted: bool)
    requires StateOk(cfg, s, e.at) && Agrees(cfg, s.table, key, h, e.at, evicted) && e.at <= now
    ensures match e
            case Ask(_, _) => Agrees(cfg, Step(cfg, s, e).table, key, h, now, evicted)
            case Success(k, _) =>
              Agrees(cfg, Step(cfg, s, e).table, key, if k == key then [] else h, now, k != key && evicted)
            case Failure(k, at) =>
              if k == key then
                Agrees(cfg, Step(cfg, s, e).table, key, if Running(cfg, h, at) then h + [at] else [at], now,
                       evicted && Running(cfg, h, at))
              else
                Agrees(cfg, Step(cfg, s, e).table, key, h, now,
                       evicted || (Running(cfg, h, at) && Victim(cfg, s.table, k, at) == Some(key)))
  {
    hide TableOk, Find, FailureTable, Delay, Victim;
    match e {
      case Ask(k, at) => DropKeyOk(cfg, s.table, k, at);
      case Failure(k, at) => FailureTableOk(cfg, s, k, at);
      case Success(k, at) => RemoveOk(cfg, s.table, k, at);
    }
  }

  lemma {:induction false} DoubledGrows(base: real, m: nat, n: nat)
    requires base > 0.0 && m <= n
    ensures Doubled(base, m) <= Doubled(base, n)
  {
    if m < n { DoubledGrows(base, m, n - 1); }
  }

  lemma DelayGrows(cfg: ValidConfig, m: nat, n: nat)
    requires m <= n
    ensures Delay(cfg, m) <= Delay(cfg, n)
  {
    if m > cfg.free { DoubledGrows(cfg.base, m - cfg.free - 1, n - cfg.free - 1); }
  }

  /** No wait for the free attempts, then `base`, then twice the wait before up to `max`. */
  lemma DelayDoubles(cfg: ValidConfig, failures: nat)
    ensures failures <= cfg.free ==> Delay(cfg, failures) == 0.0
    ensures Delay(cfg, cfg.free + 1) == cfg.base
    ensures failures > cfg.free ==> Delay(cfg, failures + 1) == Min(2.0 * Delay(cfg, failures), cfg.max)
  {
    assert Doubled(cfg.base, 0) == cfg.base;
    if failures > cfg.free { DelayGrows(cfg, failures, failures + 1); }
  }

  /** Forgetting never shortens a wait: a streak past `forget` has no wait left, because max <= forget. */
  lemma ForgettingIsHarmless(cfg: ValidConfig, streak: Streak, now: real)
    requires StreakOk(cfg, streak, now) && Expired(cfg, streak, now)
    ensures Max0(streak.deadline - now) == 0.0
  {
    assert Delay(cfg, streak.failures) <= cfg.max;
  }

  /**
   The bounded table refines the unbounded per-client history: the wait is the one the client's own
   failures and successes call for, unless its running streak was evicted, and then it is never longer.
   */
  lemma TableRefinesHistory(cfg: ValidConfig, es: seq<Event>, key: string, now: real)
    requires AfterRun(es, now)
    ensures RetryAfter(cfg, Run(cfg, es).table, key, now) <= Wait(cfg, History(cfg, es, key), now) <= cfg.max
    ensures !Evicted(cfg, es, key) ==>
              RetryAfter(cfg, Run(cfg, es).table, key, now) == Wait(cfg, History(cfg, es, key), now)
  {
    hide Find, TableOk, Delay, Run, History, Evicted;
    var t := Run(cfg, es).table;
    var h := History(cfg, es, key);
    TableAgrees(cfg, es, key, now);
    RunOk(cfg, es, now);
    FindOk(cfg, t, key, now);
    HistoryPast(cfg, es, key, now);
    assert Delay(cfg, |h|) <= cfg.max;
    var found := Find(t, key);
    if found.Some? {
      DelayGrows(cfg, found.value.failures, |h|);
      if Expired(cfg, found.value, now) { ForgettingIsHarmless(cfg, found.value, now); }
    }
  }

  lemma {:induction false} HistoryPast(cfg: ValidConfig, es: seq<Event>, key: string, now: real)
    requires AfterRun(es, now)
    ensures var h := History(cfg, es, key); h != [] ==> h[|h| - 1] <= now
    decreases |es|
  {
    if es != [] { HistoryPast(cfg, es[..|es| - 1], key, es[|es| - 1].at); }
  }

  // ---------------------------------------------------------------- the guess rate

  /** The client only guesses when it is told the wait is over. */
  predicate Waits(cfg: ValidConfig, es: seq<Event>, key: string) {
    if es == [] then true
    else
      var before := es[..|es| - 1];
      var e := es[|es| - 1];
      && Waits(cfg, before, key)
      && (e.Failure? && e.key == key ==> RetryAfter(cfg, Run(cfg, before).table, key, e.at) == 0.0)
  }

  /** Each failure comes at least the previous one's wait later. */
  predicate Paced(cfg: ValidConfig, h: seq<real>) {
    forall i :: 0 < i < |h| ==> h[i] - h[i - 1] >= Delay(cfg, i)
  }

  lemma {:induction false} HistoryIsPaced(cfg: ValidConfig, es: seq<Event>, key: string)
    requires Monotone(es) && Waits(cfg, es, key) && !Evicted(cfg, es, key)
    ensures Paced(cfg, History(cfg, es, key))
    decreases |es|
  {
    hide Delay, RetryAfter, Run, Victim;
    if es != [] {
      var before := es[..|es| - 1];
      var e := es[|es| - 1];
      var h := History(cfg, before, key);
      if Evicted(cfg, before, key) {
        assert Paced(cfg, History(cfg, es, key));
      } else {
        HistoryIsPaced(cfg, before, key);
        TableRefinesHistory(cfg, before, key, e.at);
      }
    }
  }

  /** The waits after failures 1 to n: min(base * 2^(i - free - 1), max) summed over i past the free ones. */
  function WaitSum(cfg: ValidConfig, n: nat): real {
    if n == 0 then 0.0 else WaitSum(cfg, n - 1) + Delay(cfg, n)
  }

  lemma {:induction false} PacedSum(cfg: ValidConfig, h: seq<real>)
    requires h != [] && Paced(cfg, h)
    ensures h[|h| - 1] - h[0] >= WaitSum(cfg, |h| - 1)
  {
    hide Delay;
    if |h| > 1 {
      PacedSum(cfg, h[..|h| - 1]);
      assert h[|h| - 1] - h[|h| - 2] >= Delay(cfg, |h| - 1);
    }
  }

  lemma {:induction false} CappedSum(cfg: ValidConfig, m: nat, n: nat)
    requires 0 < m <= n + 1 && Delay(cfg, m) == cfg.max
    ensures WaitSum(cfg, n) >= (n + 1 - m) as real * cfg.max
  {
    if n + 1 == m {
      WaitSumPositive(cfg, n);
    } else {
      CappedSum(cfg, m, n - 1);
      DelayGrows(cfg, m, n);
    }
  }

  lemma {:induction false} WaitSumPositive(cfg: ValidConfig, n: nat)
    ensures WaitSum(cfg, n) >= 0.0
  {
    if n > 0 { WaitSumPositive(cfg, n - 1); }
  }

  /**
   A client that waits as told: the n-th failure of a streak that was neither reset nor evicted comes at least
   the sum of the waits after its first, and past the cap `m` every further guess costs a whole `max`.
   */
  lemma GuessRate(cfg: ValidConfig, es: seq<Event>, key: string)
    requires Monotone(es) && Waits(cfg, es, key) && !Evicted(cfg, es, key)
    requires History(cfg, es, key) != []
    ensures var h := History(cfg, es, key);
            h[|h| - 1] - h[0] >= WaitSum(cfg, |h| - 1)
    ensures var h := History(cfg, es, key);
            forall m :: 0 < m <= |h| && Delay(cfg, m) == cfg.max ==>
              h[|h| - 1] - h[0] >= (|h| - m) as real * cfg.max
  {
    hide Delay, WaitSum, History, Evicted, Waits;
    var h := History(cfg, es, key);
    HistoryIsPaced(cfg, es, key);
    PacedSum(cfg, h);
    forall m | 0 < m <= |h| && Delay(cfg, m) == cfg.max
      ensures h[|h| - 1] - h[0] >= (|h| - m) as real * cfg.max
    {
      CappedSum(cfg, m, |h| - 1);
    }
  }

  lemma {:induction false} DoubledLinear(base: real, n: nat)
    requires base > 0.0
    ensures Doubled(base, n) >= base * (n + 1) as real
  {
    if n > 0 { DoubledLinear(base, n - 1); }
  }

  /** The failure from which on every wait is `max`. */
  function CapAt(cfg: ValidConfig): nat {
    cfg.free + 1 + (cfg.max / cfg.base).Floor
  }

  /** The doubling reaches the cap, at a failure that depends on the settings alone, and stays there. */
  lemma CapReached(cfg: ValidConfig, n: nat)
    requires n >= CapAt(cfg)
    ensures Delay(cfg, n) == cfg.max
  {
    hide Doubled;
    var k := n - cfg.free - 1;
    DoubledLinear(cfg.base, k);
    Cleared(cfg.base, cfg.max, k + 1);
  }

  lemma Cleared(base: real, max: real, k: nat)
    requires base > 0.0 && k as real >= max / base
    ensures base * k as real >= max
  {
    var ratio := max / base;
    assert base * ratio == max;
    assert base * (k as real - ratio) >= 0.0;
  }

  /** So the time that `n` guesses take grows by `max` a guess from `CapAt` on. */
  lemma GuessesCostMax(cfg: ValidConfig, es: seq<Event>, key: string)
    requires Monotone(es) && Waits(cfg, es, key) && !Evicted(cfg, es, key)
    requires |History(cfg, es, key)| >= CapAt(cfg)
    ensures var h := History(cfg, es, key);
            h[|h| - 1] - h[0] >= (|h| - CapAt(cfg)) as real * cfg.max
  {
    hide Delay, WaitSum, History, Evicted, Waits;
    CapReached(cfg, CapAt(cfg));
    GuessRate(cfg, es, key);
  }

  // ---------------------------------------------------------------- the alerts

  function DecisionOf(cfg: ValidConfig, s: State, e: Event): Decision {
    if e.Failure? then DecisionAt(cfg, s, e.key, e.at) else Silent
  }

  function HeldCount(cfg: ValidConfig, es: seq<Event>): nat {
    if es == [] then 0
    else
      var before := es[..|es| - 1];
      HeldCount(cfg, before) + if DecisionOf(cfg, Run(cfg, before), es[|es| - 1]).HeldBack? then 1 else 0
  }

  /** The `suppressed` fields of the alerts that were sent, summed. */
  function ReportedHeld(cfg: ValidConfig, es: seq<Event>): nat {
    if es == [] then 0
    else
      var before := es[..|es| - 1];
      var decision := DecisionOf(cfg, Run(cfg, before), es[|es| - 1]);
      ReportedHeld(cfg, before) + if decision.Raised? then decision.alert.suppressed else 0
  }

  /** When alerts were sent. */
  function RaiseTimes(cfg: ValidConfig, es: seq<Event>): seq<real> {
    if es == [] then []
    else
      var before := es[..|es| - 1];
      var e := es[|es| - 1];
      RaiseTimes(cfg, before) + if DecisionOf(cfg, Run(cfg, before), e).Raised? then [e.at] else []
  }

  function RaisedCount(cfg: ValidConfig, es: seq<Event>): nat {
    if es == [] then 0
    else
      var before := es[..|es| - 1];
      RaisedCount(cfg, before) + if DecisionOf(cfg, Run(cfg, before), es[|es| - 1]).Raised? then 1 else 0
  }

  /** The event sets the alert flag of a streak that did not have it. */
  predicate Marks(cfg: ValidConfig, s: State, e: Event) {
    var live := Live(cfg, s.table, e.key, e.at);
    var after := Find(Step(cfg, s, e).table, e.key);
    e.Failure? && after.Some? && after.value.alerted && !(live.Some? && live.value.alerted)
  }

  function MarkedCount(cfg: ValidConfig, es: seq<Event>): nat {
    if es == [] then 0
    else
      var before := es[..|es| - 1];
      MarkedCount(cfg, before) + if Marks(cfg, Run(cfg, before), es[|es| - 1]) then 1 else 0
  }

  lemma MarksAreDecisions(cfg: ValidConfig, s: State, e: Event)
    requires StateOk(cfg, s, e.at)
    ensures Marks(cfg, s, e) <==> DecisionOf(cfg, s, e) != Silent
  {
    hide Find, TableOk, Delay, FailureTable, Victim;
    if e.Failure? { FailureTableOk(cfg, s, e.key, e.at); }
  }

  /** Every streak that is marked was either announced or held back, and none besides. */
  lemma {:induction false} MarksBalance(cfg: ValidConfig, es: seq<Event>)
    requires Monotone(es)
    ensures MarkedCount(cfg, es) == RaisedCount(cfg, es) + HeldCount(cfg, es)
    decreases |es|
  {
    hide Marks, DecisionOf, StateOk, Run;
    if es != [] {
      MarksBalance(cfg, es[..|es| - 1]);
      RunOk(cfg, es[..|es| - 1], es[|es| - 1].at);
      MarksAreDecisions(cfg, Run(cfg, es[..|es| - 1]), es[|es| - 1]);
    }
  }

  /** No held-back alert is lost: every one is in a sent alert's count or waits in the counter. */
  lemma {:induction false} AlertLedger(cfg: ValidConfig, es: seq<Event>)
    ensures HeldCount(cfg, es) == ReportedHeld(cfg, es) + Run(cfg, es).suppressed
    decreases |es|
  {
    hide DecisionAt, FailureTable, DropKey, Remove;
    if es != [] {
      AlertLedger(cfg, es[..|es| - 1]);
      DecisionCount(cfg, Run(cfg, es[..|es| - 1]), es[|es| - 1]);
    }
  }

  lemma DecisionCount(cfg: ValidConfig, s: State, e: Event)
    ensures DecisionOf(cfg, s, e).Raised? ==> DecisionOf(cfg, s, e).alert.suppressed == s.suppressed
  {
    hide Count, Live;
  }

  lemma LastAlertStep(cfg: ValidConfig, s: State, e: Event)
    ensures Step(cfg, s, e).lastAlert == if DecisionOf(cfg, s, e).Raised? then Some(e.at) else s.lastAlert
    ensures DecisionOf(cfg, s, e).Raised? && s.lastAlert.Some? ==> e.at - s.lastAlert.value >= cfg.cooldown
  {
    hide Count, Live, FailureTable, DropKey, Remove;
  }

  /** Sent alerts are at least a cooldown apart, so n of them span n - 1 cooldowns. */
  lemma {:induction false} AlertsSpaced(cfg: ValidConfig, es: seq<Event>)
    requires Monotone(es)
    ensures var times := RaiseTimes(cfg, es);
            Run(cfg, es).lastAlert == if times == [] then None else Some(times[|times| - 1])
    ensures var times := RaiseTimes(cfg, es);
            forall i :: 0 < i < |times| ==> times[i] - times[i - 1] >= cfg.cooldown
    decreases |es|
  {
    hide Step, DecisionOf;
    if es != [] {
      AlertsSpaced(cfg, es[..|es| - 1]);
      LastAlertStep(cfg, Run(cfg, es[..|es| - 1]), es[|es| - 1]);
    }
  }

  /**
   The owner's alert is decided exactly when a streak reaches `alertAfter` failures: not before, not again.
   Whether it is sent or held back, that is the moment the streak is marked.
   */
  lemma AlertExactlyAtThreshold(cfg: ValidConfig, es: seq<Event>, key: string, now: real)
    requires AfterRun(es, now)
    ensures var t := Run(cfg, es).table;
            !DecisionAt(cfg, Run(cfg, es), key, now).Silent? <==>
            cfg.hasAlert && Count(cfg, Live(cfg, t, key, now), now).failures == cfg.alertAfter
    ensures var decision := DecisionAt(cfg, Run(cfg, es), key, now);
            decision.Raised? ==> decision.alert == Alert(key, cfg.alertAfter, Run(cfg, es).suppressed)
  {
    hide Find, TableOk, Delay;
    RunOk(cfg, es, now);
    FindOk(cfg, Run(cfg, es).table, key, now);
  }

  /** How many failures a client's streak holds once one more is counted, by its own history. */
  lemma CountedByHistory(cfg: ValidConfig, es: seq<Event>, key: string, now: real)
    requires AfterRun(es, now) && !Evicted(cfg, es, key)
    ensures var h := History(cfg, es, key);
            Count(cfg, Live(cfg, Run(cfg, es).table, key, now), now).failures ==
            if Running(cfg, h, now) then |h| + 1 else 1
  {
    hide Find, TableOk, Delay, Run, History, Evicted;
    TableAgrees(cfg, es, key, now);
  }

  /**
   When an alert is sent and when it is held back, from the calls alone: the failure that brings a client's streak
   to `alertAfter` is announced unless the last announcement is less than a cooldown ago.
   */
  lemma AlertSentExactly(cfg: ValidConfig, es: seq<Event>, key: string, now: real)
    requires AfterRun(es, now) && !Evicted(cfg, es, key)
    ensures var times, h := RaiseTimes(cfg, es), History(cfg, es, key);
            var decision := DecisionAt(cfg, Run(cfg, es), key, now);
            var due := cfg.hasAlert && cfg.alertAfter == if Running(cfg, h, now) then |h| + 1 else 1;
            var recent := times != [] && now - times[|times| - 1] < cfg.cooldown;
            && (decision.HeldBack? <==> due && recent)
            && (decision.Raised? <==> due && !recent)
  {
    hide Find, TableOk, Delay, Run, History, Evicted, RaiseTimes, Live, Count;
    CountedByHistory(cfg, es, key, now);
    HeldBackExactly(cfg, es, key, now);
    AlertExactlyAtThreshold(cfg, es, key, now);
  }

  /** A decided alert is held back exactly when the last one sent is less than a cooldown ago. */
  lemma HeldBackExactly(cfg: ValidConfig, es: seq<Event>, key: string, now: real)
    requires AfterRun(es, now)
    ensures var times := RaiseTimes(cfg, es);
            var decision := DecisionAt(cfg, Run(cfg, es), key, now);
            !decision.Silent? ==>
              (decision.HeldBack? <==> times != [] && now - times[|times| - 1] < cfg.cooldown)
  {
    hide Live, Count, Run, RaiseTimes;
    AlertsSpaced(cfg, es);
  }

  /** Event `k` starts a new streak for `key`. */
  predicate Restarts(cfg: ValidConfig, es: seq<Event>, key: string, k: nat)
    requires k < |es|
  {
    es[k].Failure? && es[k].key == key && Live(cfg, Run(cfg, es[..k]).table, key, es[k].at).None?
  }

  lemma RunStep(cfg: ValidConfig, es: seq<Event>, k: nat)
    requires k < |es|
    ensures Run(cfg, es[..k + 1]) == Step(cfg, Run(cfg, es[..k]), es[k])
  {
    TakeTake(es, k + 1, k);
  }

  lemma {:induction false} MonotonePrefix(es: seq<Event>, k: nat)
    requires Monotone(es) && k < |es|
    ensures AfterRun(es[..k], es[k].at)
    decreases |es|
  {
    if k + 1 < |es| {
      MonotonePrefix(es[..|es| - 1], k);
      TakeTake(es, |es| - 1, k);
    }
  }

  lemma {:induction false} StaysMarked(cfg: ValidConfig, es: seq<Event>, key: string, i: nat, n: nat)
    requires Monotone(es) && i < n <= |es| && es[i].Failure? && es[i].key == key
    requires !DecisionAt(cfg, Run(cfg, es[..i]), key, es[i].at).Silent?
    requires forall k :: i < k < n ==> !Restarts(cfg, es, key, k)
    ensures var found := Find(Run(cfg, es[..n]).table, key);
            found.Some? ==> found.value.failures >= cfg.alertAfter
  {
    hide Find, TableOk, Delay, FailureTable, Run, Monotone, Victim;
    var s := Run(cfg, es[..n - 1]);
    var e := es[n - 1];
    RunStep(cfg, es, n - 1);
    MonotonePrefix(es, n - 1);
    RunOk(cfg, es[..n - 1], e.at);
    if n == i + 1 {
      AlertExactlyAtThreshold(cfg, es[..i], key, e.at);
    } else {
      StaysMarked(cfg, es, key, i, n - 1);
      assert !Restarts(cfg, es, key, n - 1);
    }
    match e {
      case Ask(k, at) => DropKeyOk(cfg, s.table, k, at);
      case Failure(k, at) => FailureTableOk(cfg, s, k, at);
      case Success(k, at) => RemoveOk(cfg, s.table, k, at);
    }
  }

  /** No streak alerts twice: between two decisions for one client, its streak started again. */
  lemma OneAlertPerStreak(cfg: ValidConfig, es: seq<Event>, key: string, i: nat, j: nat)
    requires Monotone(es) && i < j < |es|
    requires es[i].Failure? && es[i].key == key && !DecisionAt(cfg, Run(cfg, es[..i]), key, es[i].at).Silent?
    requires es[j].Failure? && es[j].key == key && !DecisionAt(cfg, Run(cfg, es[..j]), key, es[j].at).Silent?
    ensures exists k :: i < k <= j && Restarts(cfg, es, key, k)
  {
    hide Find, Delay, Run, Monotone;
    if forall k :: i < k < j ==> !Restarts(cfg, es, key, k) {
      StaysMarked(cfg, es, key, i, j);
      MonotonePrefix(es, j);
      AlertExactlyAtThreshold(cfg, es[..j], key, es[j].at);
      assert Restarts(cfg, es, key, j);
    }
  }
}
