/**
 The login lock-out (src/login_lockout.py): a bounded table of failure streaks in
 order of last failure, doubling waits, forgetting, eviction and an alert cooldown.

 `LoginLockout` is the source's class; its methods are proved against the functions
 of this module, and the promises are proved about runs of those functions.
 Times are reals; the lock is not modelled, each method is one atomic step.
 */
module LoginLockout {
  import opened Options
  import opened Seqs

  datatype Config = Config(free: int, base: real, max: real, forget: real,
                           maxClients: int, alertAfter: int, cooldown: real, hasAlert: bool)

  /** What the constructor accepts. */
  predicate Accepted(cfg: Config) {
    && cfg.free >= 0 && cfg.alertAfter >= 1 && cfg.maxClients >= 1
    && 0.0 < cfg.base <= cfg.max <= cfg.forget
    && cfg.cooldown >= 0.0
  }

  type ValidConfig = cfg: Config | Accepted(cfg) witness Config(5, 2.0, 300.0, 3600.0, 1024, 3, 300.0, true)

  datatype Streak = Streak(failures: nat, deadline: real, lastFailure: real, alerted: bool)
  datatype Entry = Entry(key: string, streak: Streak)

  /** The ordered dictionary: distinct keys, oldest failure first. */
  type Table = seq<Entry>

  datatype Alert = Alert(key: string, failures: nat, suppressed: nat)

  /** What a failure does about the owner's alert. */
  datatype Decision = Silent | Raised(alert: Alert) | HeldBack

  datatype State = State(table: Table, lastAlert: Option<real>, suppressed: nat)

  const START: State := State([], None, 0)

  // ---------------------------------------------------------------- the table

  function Find(t: Table, key: string): Option<Streak> {
    if t == [] then None
    else if t[0].key == key then Some(t[0].streak)
    else Find(t[1..], key)
  }

  function Remove(t: Table, key: string): (r: Table) {
    if t == [] then []
    else if t[0].key == key then t[1..]
    else [t[0]] + Remove(t[1..], key)
  }

  /** A dictionary holds a key once. */
  predicate DistinctKeys(t: Table) {
    forall i, j :: 0 <= i < j < |t| ==> t[i].key != t[j].key
  }

  lemma {:induction false} FindNone(t: Table, key: string)
    ensures Find(t, key).None? <==> forall i :: 0 <= i < |t| ==> t[i].key != key
  {
    if t != [] { FindNone(t[1..], key); }
  }

  /** `r` is `t` without its entry number `i`, which is one of `key`. */
  ghost predicate TakenOut(t: Table, key: string, r: Table, i: nat) {
    i < |t| && t[i].key == key && r == t[..i] + t[i + 1..]
  }

  lemma TakenLater(t: Table, key: string, r: Table, i: nat)
    requires t != [] && TakenOut(t[1..], key, r, i)
    ensures TakenOut(t, key, [t[0]] + r, i + 1)
  {
    TakeDrop(t, i + 1, 1);
    DropDrop(t, 1, i + 1);
    HeadTail(t[..i + 1]);
    Assoc([t[0]], t[1..][..i], t[1..][i + 1..]);
  }

  lemma TakenFirst(t: Table, key: string)
    requires t != [] && t[0].key == key
    ensures TakenOut(t, key, t[1..], 0)
  {
    NoneLeft(t);
    NoneLeft(t[1..]);
  }

  /** Removing a key takes one entry of it out and leaves the others in their order. */
  lemma {:induction false} RemoveAt(t: Table, key: string) returns (i: nat)
    ensures Find(t, key).None? ==> Remove(t, key) == t
    ensures Find(t, key).Some? ==> TakenOut(t, key, Remove(t, key), i)
  {
    hide TakenOut;
    i := 0;
    if t != [] {
      HeadTail(t);
      if t[0].key == key {
        TakenFirst(t, key);
      } else {
        i := RemoveAt(t[1..], key);
        if Find(t, key).Some? {
          TakenLater(t, key, Remove(t[1..], key), i);
          i := i + 1;
        }
      }
    }
  }

  lemma {:induction false} RemoveFind(t: Table, key: string, other: string)
    ensures other != key ==> Find(Remove(t, key), other) == Find(t, other)
    ensures DistinctKeys(t) ==> Find(Remove(t, key), key).None?
  {
    if t != [] {
      if t[0].key == key {
        FindNone(t[1..], key);
      } else {
        RemoveFind(t[1..], key, other);
        assert ([t[0]] + Remove(t[1..], key))[1..] == Remove(t[1..], key);
      }
    }
  }

  predicate Expired(cfg: ValidConfig, streak: Streak, now: real) {
    now - streak.lastFailure >= cfg.forget
  }

  /** The table after an expired streak of `key` has been dropped. */
  function DropKey(cfg: ValidConfig, t: Table, key: string, now: real): Table {
    var found := Find(t, key);
    if found.Some? && Expired(cfg, found.value, now) then Remove(t, key) else t
  }

  function Live(cfg: ValidConfig, t: Table, key: string, now: real): Option<Streak> {
    var found := Find(t, key);
    if found.Some? && Expired(cfg, found.value, now) then None else found
  }

  function DropExpired(cfg: ValidConfig, t: Table, now: real): (r: Table)
    ensures |r| <= |t|
  {
    if t != [] && Expired(cfg, t[0].streak, now) then DropExpired(cfg, t[1..], now) else t
  }

  /** Room for one more client: expired streaks leave the front, then its head if the table is still full. */
  function MakeRoom(cfg: ValidConfig, t: Table, now: real): Table {
    var kept := DropExpired(cfg, t, now);
    if |kept| >= cfg.maxClients then kept[1..] else kept
  }

  // ---------------------------------------------------------------- one call

  /** `base * 2 ** n`. */
  function Doubled(base: real, n: nat): (d: real)
    requires base > 0.0
    ensures d > 0.0
  {
    if n == 0 then base else 2.0 * Doubled(base, n - 1)
  }

  function Min(a: real, b: real): real { if a <= b then a else b }

  function Max0(a: real): real { if a >= 0.0 then a else 0.0 }

  /** The wait that follows failure number `failures` of a streak. */
  function Delay(cfg: ValidConfig, failures: nat): (d: real)
    ensures 0.0 <= d <= cfg.max
  {
    if failures > cfg.free then Min(Doubled(cfg.base, failures - cfg.free - 1), cfg.max) else 0.0
  }

  function RetryAfter(cfg: ValidConfig, t: Table, key: string, now: real): real {
    var streak := Live(cfg, t, key, now);
    if streak.Some? then Max0(streak.value.deadline - now) else 0.0
  }

  /** The streak after one more failure, alert flag untouched. */
  function Count(cfg: ValidConfig, streak: Option<Streak>, now: real): Streak {
    var failures := if streak.Some? then streak.value.failures + 1 else 1;
    Streak(failures, now + Delay(cfg, failures), now, streak.Some? && streak.value.alerted)
  }

  predicate AlertDue(cfg: ValidConfig, streak: Streak) {
    cfg.hasAlert && !streak.alerted && streak.failures >= cfg.alertAfter
  }

  function Decide(cfg: ValidConfig, s: State, key: string, streak: Streak, now: real): Decision {
    if !AlertDue(cfg, streak) then Silent
    else if s.lastAlert.Some? && now - s.lastAlert.value < cfg.cooldown then HeldBack
    else Raised(Alert(key, streak.failures, s.suppressed))
  }

  function DecisionAt(cfg: ValidConfig, s: State, key: string, now: real): Decision {
    Decide(cfg, s, key, Count(cfg, Live(cfg, s.table, key, now), now), now)
  }

  function FailureTable(cfg: ValidConfig, s: State, key: string, now: real): Table {
    var streak := Live(cfg, s.table, key, now);
    var t := DropKey(cfg, s.table, key, now);
    var others := if streak.Some? then Remove(t, key) else MakeRoom(cfg, t, now);
    var counted := Count(cfg, streak, now);
    others + [Entry(key, counted.(alerted := counted.alerted || AlertDue(cfg, counted)))]
  }

  function AfterFailure(cfg: ValidConfig, s: State, key: string, now: real): State {
    var table := FailureTable(cfg, s, key, now);
    match DecisionAt(cfg, s, key, now)
    case Silent => s.(table := table)
    case HeldBack => State(table, s.lastAlert, s.suppressed + 1)
    case Raised(_) => State(table, Some(now), 0)
  }

  // ---------------------------------------------------------------- the class

  class LoginLockout {
    const cfg: ValidConfig
    var table: Table
    var lastAlert: Option<real>
    var suppressed: nat

    /** The constructor's ValueError is the `None` result. */
    static method Create(cfg: Config) returns (r: Option<LoginLockout>)
      ensures r.Some? <==>
                && cfg.free >= 0 && cfg.alertAfter >= 1 && cfg.maxClients >= 1
                && cfg.base > 0.0 && cfg.max >= cfg.base && cfg.forget >= cfg.max && cfg.cooldown >= 0.0
      ensures r.Some? ==> fresh(r.value) && r.value.cfg == cfg && r.value.Snapshot() == START
    {
      if Accepted(cfg) {
        var lockout := new LoginLockout(cfg);
        r := Some(lockout);
      } else {
        r := None;
      }
    }

    constructor (cfg: ValidConfig)
      ensures this.cfg == cfg && Snapshot() == START
    {
      this.cfg := cfg;
      table, lastAlert, suppressed := [], None, 0;
    }

    function Snapshot(): State
      reads this
    {
      State(table, lastAlert, suppressed)
    }

    /** The streak of `key` if it has not been forgotten; a forgotten one is deleted. */
    method LiveStreak(key: string, now: real) returns (streak: Option<Streak>)
      modifies this`table
      ensures table == DropKey(cfg, old(table), key, now)
      ensures streak == Live(cfg, old(table), key, now)
    {
      streak := Find(table, key);
      if streak.Some? && now - streak.value.lastFailure >= cfg.forget {
        table := Remove(table, key);
        streak := None;
      }
    }

    method RetryAfterNow(key: string, now: real) returns (wait: real)
      modifies this`table
      ensures table == DropKey(cfg, old(table), key, now)
      ensures wait == RetryAfter(cfg, old(table), key, now)
    {
      var streak := LiveStreak(key, now);
      wait := if streak.Some? then Max0(streak.value.deadline - now) else 0.0;
    }

    method MakeRoomFor(now: real)
      modifies this`table
      ensures table == MakeRoom(cfg, old(table), now)
    {
      while table != []
        invariant DropExpired(cfg, table, now) == DropExpired(cfg, old(table), now)
        decreases |table|
      {
        var oldest := table[0].streak;
        if now - oldest.lastFailure < cfg.forget { break; }
        table := table[1..];
      }
      if |table| >= cfg.maxClients { table := table[1..]; }
    }

    /** Decides about the alert and remembers the decision; the caller stores the flag. */
    method TakeAlert(key: string, streak: Streak, now: real) returns (decision: Decision, marked: Streak)
      modifies this`lastAlert, this`suppressed
      ensures decision == Decide(cfg, old(Snapshot()), key, streak, now)
      ensures marked == streak.(alerted := streak.alerted || AlertDue(cfg, streak))
      ensures decision.Raised? ==> lastAlert == Some(now) && suppressed == 0
      ensures decision.HeldBack? ==> lastAlert == old(lastAlert) && suppressed == old(suppressed) + 1
      ensures decision.Silent? ==> lastAlert == old(lastAlert) && suppressed == old(suppressed)
    {
      marked := streak;
      if !cfg.hasAlert || streak.alerted || streak.failures < cfg.alertAfter { return Silent, marked; }
      marked := streak.(alerted := true);
      if lastAlert.Some? && now - lastAlert.value < cfg.cooldown {
        suppressed := suppressed + 1;
        return HeldBack, marked;
      }
      decision := Raised(Alert(key, streak.failures, suppressed));
      lastAlert, suppressed := Some(now), 0;
    }

    method RecordFailure(key: string, now: real) returns (delay: real, decision: Decision)
      modifies this
      ensures Snapshot() == AfterFailure(cfg, old(Snapshot()), key, now)
      ensures decision == DecisionAt(cfg, old(Snapshot()), key, now)
      ensures delay == Delay(cfg, Count(cfg, Live(cfg, old(table), key, now), now).failures)
    {
      var streak := LiveStreak(key, now);
      if streak.None? {
        MakeRoomFor(now);
      } else {
        table := Remove(table, key);
      }
      var failures := if streak.Some? then streak.value.failures + 1 else 1;
      delay := Delay(cfg, failures);
      var counted := Streak(failures, now + delay, now, streak.Some? && streak.value.alerted);
      decision, counted := TakeAlert(key, counted, now);
      table := table + [Entry(key, counted)];
    }

    /** The client's streak is gone; every other client keeps its own, in the old order. */
    method Reset(key: string)
      modifies this`table
      ensures table == Remove(old(table), key)
      ensures forall other :: other != key ==> Find(table, other) == Find(old(table), other)
      ensures DistinctKeys(old(table)) ==> Find(table, key).None?
      ensures Find(old(table), key).None? ==> table == old(table)
      ensures Find(old(table), key).Some? ==> exists i :: TakenOut(old(table), key, table, i)
    {
      hide Find, Remove, DistinctKeys, TakenOut;
      forall other { RemoveFind(table, key, other); }
      var i := RemoveAt(table, key);
      table := Remove(table, key);
    }
  }
}
