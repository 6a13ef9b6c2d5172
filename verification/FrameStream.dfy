/**
 The acknowledged frame stream of the screen view (src/desktop_capture.py, `stream_frames`).

 The coroutine runs from one await to the next; between two such steps the viewer may set
 `acked` or `stopped`, and each grab may fail or return any picture.  What can be observed
 is kept as a trace.  Sending a frame or a status is taken not to raise.
 */
module FrameStream {
  import opened Options
  import opened Seqs

  type Digest = seq<bv8>

  datatype Event =
    | AckSet | StopSet
    | GrabStarted
    | Grabbed(shot: Option<Digest>)  // None: the desktop could not be read
    | Status(live: bool)
    | Frame(digest: Digest)

  /** Where the coroutine is suspended. */
  datatype Place =
    | Top | WaitingForAck | Grabbing
    | TellingUnavailable | TellingLive(digest: Digest)
    | Encoding(digest: Digest) | Sending(digest: Digest)
    | Sleeping | Ended

  datatype State = State(
    place: Place, acked: bool, stopped: bool,
    frames: nat, lastDigest: Option<Digest>, unavailable: bool,
    trace: seq<Event>)

  const START: State := State(Top, false, false, 0, None, false, [])

  datatype Action =
    | SetAck | SetStop                         // the viewer's side
    | CheckTop | WakeUp                        // `while not stopped`, then `_wait_or_stop`
    | GrabFails | GrabGives(digest: Digest)
    | StatusDone | EncodeDone | SendDone | SleepDone

  predicate Enabled(s: State, a: Action) {
    match a
    case SetAck => true
    case SetStop => true
    case CheckTop => s.place.Top?
    case WakeUp => s.place.WaitingForAck? && (s.acked || s.stopped)
    case GrabFails => s.place.Grabbing?
    case GrabGives(_) => s.place.Grabbing?
    case StatusDone => s.place.TellingUnavailable? || s.place.TellingLive?
    case EncodeDone => s.place.Encoding?
    case SendDone => s.place.Sending?
    case SleepDone => s.place.Sleeping?
  }

  function Log(s: State, e: Event): State {
    s.(trace := s.trace + [e])
  }

  /** The acknowledgement won: grab, unless stopped. */
  function Grab(s: State): State {
    if s.acked && !s.stopped then Log(s, GrabStarted).(place := Grabbing) else s.(place := Ended)
  }

  /** A picture in hand: encode it only if it changed. */
  function Compare(s: State, digest: Digest): State {
    s.(place := if Some(digest) != s.lastDigest then Encoding(digest) else Sleeping)
  }

  function Next(s: State, a: Action): State
    requires Enabled(s, a)
  {
    match a
    case SetAck => Log(s, AckSet).(acked := true)
    case SetStop => Log(s, StopSet).(stopped := true)
    case CheckTop =>
      if s.stopped then s.(place := Ended)
      else if s.acked then Grab(s)
      else s.(place := WaitingForAck)
    case WakeUp => Grab(s)
    case GrabFails =>
      var failed := Log(s, Grabbed(None));
      if s.unavailable then failed.(place := Sleeping)
      else Log(failed, Status(false)).(unavailable := true, place := TellingUnavailable)
    case GrabGives(digest) =>
      var grabbed := Log(s, Grabbed(Some(digest)));
      if s.unavailable then
        Log(grabbed, Status(true)).(unavailable := false, lastDigest := None, place := TellingLive(digest))
      else Compare(grabbed, digest)
    case StatusDone => if s.place.TellingLive? then Compare(s, s.place.digest) else s.(place := Sleeping)
    case EncodeDone =>
      if s.stopped then s.(place := Ended)
      else Log(s, Frame(s.place.digest)).(acked := false, place := Sending(s.place.digest))
    case SendDone => s.(frames := s.frames + 1, lastDigest := Some(s.place.digest), place := Sleeping)
    case SleepDone => s.(place := Top)
  }

  function Run(schedule: seq<Action>): Option<State> {
    if schedule == [] then Some(START)
    else
      var before := Run(schedule[..|schedule| - 1]);
      var a := schedule[|schedule| - 1];
      if before.Some? && Enabled(before.value, a) then Some(Next(before.value, a)) else None
  }

  // ---------------------------------------------------------------- reading a trace

  function Init(t: seq<Event>): seq<Event>
    requires t != []
  {
    t[..|t| - 1]
  }

  function Final(t: seq<Event>): Event
    requires t != []
  {
    t[|t| - 1]
  }

  function Acks(t: seq<Event>): nat {
    if t == [] then 0 else Acks(Init(t)) + if Final(t).AckSet? then 1 else 0
  }

  function Frames(t: seq<Event>): nat {
    if t == [] then 0 else Frames(Init(t)) + if Final(t).Frame? then 1 else 0
  }

  /** An acknowledgement has come in that no frame has used up: the last of either kind is an acknowledgement. */
  predicate InHand(t: seq<Event>) {
    t != [] && (Final(t).AckSet? || (!Final(t).Frame? && InHand(Init(t))))
  }

  predicate StopRequested(t: seq<Event>) {
    t != [] && (Final(t).StopSet? || StopRequested(Init(t)))
  }

  function Statuses(t: seq<Event>): seq<bool> {
    if t == [] then [] else Statuses(Init(t)) + if Final(t).Status? then [Final(t).live] else []
  }

  /** The last frame sent since the desktop was last unreadable. */
  function Shown(t: seq<Event>): Option<Digest> {
    if t == [] then None
    else
      match Final(t)
      case Frame(d) => Some(d)
      case Grabbed(None) => None
      case _ => Shown(Init(t))
  }

  /** A grabbed picture the viewer does not have yet: it differs from the last frame since an outage. */
  function Owed(t: seq<Event>): Option<Digest> {
    if t == [] then None
    else
      match Final(t)
      case Frame(_) => None
      case Grabbed(Some(d)) => if Shown(Init(t)) == Some(d) then None else Some(d)
      case Grabbed(None) => None
      case _ => Owed(Init(t))
  }

  /** The last grab that came back could not read the desktop. */
  predicate OutNow(t: seq<Event>) {
    t != [] && (Final(t) == Grabbed(None) || (!Final(t).Grabbed? && OutNow(Init(t))))
  }

  /** A grab has started and not come back. */
  predicate GrabOpen(t: seq<Event>) {
    t != [] && (Final(t).GrabStarted? || (!Final(t).Grabbed? && GrabOpen(Init(t))))
  }

  // ---------------------------------------------------------------- what every event keeps

  /** What may be said about one event, given the trace before it. */
  predicate EventOk(before: seq<Event>, e: Event) {
    match e
    case GrabStarted => InHand(before) && !StopRequested(before) && !GrabOpen(before) && Owed(before) == None
    case Grabbed(_) => GrabOpen(before)
    case Status(live) => Statuses(before) == [] || Statuses(before)[|Statuses(before)| - 1] != live
    case Frame(d) => InHand(before) && !StopRequested(before) && Shown(before) != Some(d) && Owed(before) == Some(d)
    case _ => true
  }

  predicate TraceOk(t: seq<Event>) {
    t == [] || (TraceOk(Init(t)) && EventOk(Init(t), Final(t)))
  }

  /** What the coroutine's variables say about the trace. */
  predicate Inv(s: State) {
    && TraceOk(s.trace)
    && s.acked == InHand(s.trace) && s.stopped == StopRequested(s.trace)
    && Frames(s.trace) + (if s.acked then 1 else 0) <= Acks(s.trace)
    && s.frames + (if s.place.Sending? then 1 else 0) == Frames(s.trace)
    && (if Statuses(s.trace) == [] then !s.unavailable
        else s.unavailable == !Statuses(s.trace)[|Statuses(s.trace)| - 1])
    && s.unavailable == OutNow(s.trace)
    && (Statuses(s.trace) != [] ==> !Statuses(s.trace)[0])
    && (s.place.Grabbing? || s.place.TellingLive? || s.place.Encoding? ==> s.acked)
    && (s.place.Grabbing? <==> GrabOpen(s.trace))
    && (s.place.Ended? ==> s.stopped)
    && Shown(s.trace) == (if s.place.Sending? then Some(s.place.digest)
                          else if s.unavailable then None else s.lastDigest)
    && (match s.place
        case TellingLive(d) => s.lastDigest == None && !s.unavailable && Owed(s.trace) == Some(d)
        case Encoding(d) => s.lastDigest != Some(d) && !s.unavailable && Owed(s.trace) == Some(d)
        case Sending(_) => !s.unavailable && Owed(s.trace) == None
        case Ended => true
        case _ => Owed(s.trace) == None)
  }

  /** Adding one event, spelled out for every reading of the trace. */
  lemma Append(t: seq<Event>, e: Event)
    ensures Acks(t + [e]) == Acks(t) + if e.AckSet? then 1 else 0
    ensures Frames(t + [e]) == Frames(t) + if e.Frame? then 1 else 0
    ensures InHand(t + [e]) <==> e.AckSet? || (!e.Frame? && InHand(t))
    ensures StopRequested(t + [e]) <==> e.StopSet? || StopRequested(t)
    ensures Statuses(t + [e]) == Statuses(t) + if e.Status? then [e.live] else []
    ensures Shown(t + [e]) == if e.Frame? then Some(e.digest) else if e == Grabbed(None) then None else Shown(t)
    ensures Owed(t + [e]) ==
            if e.Frame? then None
            else if e.Grabbed? then
              if e.shot.None? || Shown(t) == e.shot then None else e.shot
            else Owed(t)
    ensures OutNow(t + [e]) <==> e == Grabbed(None) || (!e.Grabbed? && OutNow(t))
    ensures GrabOpen(t + [e]) <==> e.GrabStarted? || (!e.Grabbed? && GrabOpen(t))
    ensures TraceOk(t + [e]) <==> TraceOk(t) && EventOk(t, e)
  {
    assert Init(t + [e]) == t;
  }

  lemma GrabStepOk(s: State, a: Action)
    requires Inv(s) && Enabled(s, a) && (a.CheckTop? || a.WakeUp? || a.GrabFails? || a.GrabGives?)
    ensures Inv(Next(s, a))
  {
    hide Acks, Frames, InHand, StopRequested, Statuses, Shown, Owed, OutNow, GrabOpen, TraceOk;
    match a {
      case CheckTop => Append(s.trace, GrabStarted);
      case WakeUp => Append(s.trace, GrabStarted);
      case GrabFails =>
        Append(s.trace, Grabbed(None));
        Append(s.trace + [Grabbed(None)], Status(false));
      case GrabGives(d) =>
        Append(s.trace, Grabbed(Some(d)));
        Append(s.trace + [Grabbed(Some(d))], Status(true));
    }
  }

  lemma StepOk(s: State, a: Action)
    requires Inv(s) && Enabled(s, a)
    ensures Inv(Next(s, a))
  {
    hide Acks, Frames, InHand, StopRequested, Statuses, Shown, Owed, OutNow, GrabOpen, TraceOk;
    match a {
      case SetAck => Append(s.trace, AckSet);
      case SetStop => Append(s.trace, StopSet);
      case EncodeDone => Append(s.trace, Frame(s.place.digest));
      case StatusDone =>
      case SendDone =>
      case SleepDone =>
      case _ => GrabStepOk(s, a);
    }
  }

  lemma {:induction false} Reachable(schedule: seq<Action>)
    requires Run(schedule).Some?
    ensures Inv(Run(schedule).value)
  {
    hide Inv;
    if schedule == [] {
      StartOk();
    } else {
      Reachable(schedule[..|schedule| - 1]);
      StepOk(Run(schedule[..|schedule| - 1]).value, schedule[|schedule| - 1]);
    }
  }

  lemma StartOk()
    ensures Inv(START)
  {}

  // ---------------------------------------------------------------- the promises

  lemma {:induction false} TraceOkAt(t: seq<Event>, i: nat)
    requires TraceOk(t) && i < |t|
    ensures EventOk(t[..i], t[i]) && TraceOk(t[..i])
    decreases |t|
  {
    hide EventOk;
    if i < |t| - 1 {
      TraceOkAt(Init(t), i);
      TakeTake(t, |t| - 1, i);
    }
  }

  lemma TraceReachable(schedule: seq<Action>)
    requires Run(schedule).Some?
    ensures TraceOk(Run(schedule).value.trace)
  {
    Reachable(schedule);
  }

  /** From no acknowledgement in hand to one in hand there is an acknowledgement. */
  lemma {:induction false} AckComes(t: seq<Event>, i: nat, j: nat) returns (k: nat)
    requires i <= j <= |t| && !InHand(t[..i]) && InHand(t[..j])
    ensures i <= k < j && t[k].AckSet?
    decreases j - i
  {
    if i == j {
      assert false;
    } else {
      TakeTake(t, j, j - 1);
      if t[j - 1].AckSet? { k := j - 1; } else { k := AckComes(t, i, j - 1); }
    }
  }

  /** No grab starts and no frame goes out without an acknowledgement in hand, nor after a stop. */
  lemma AckedFlow(schedule: seq<Action>, i: nat)
    requires Run(schedule).Some?
    requires var t := Run(schedule).value.trace; i < |t| && (t[i].GrabStarted? || t[i].Frame?)
    ensures var t := Run(schedule).value.trace; InHand(t[..i]) && !StopRequested(t[..i])
  {
    TraceReachable(schedule);
    TraceOkAt(Run(schedule).value.trace, i);
  }

  /** Frames go out one at a time: between any two there is an acknowledgement. */
  lemma OneInFlight(schedule: seq<Action>, i: nat, j: nat) returns (k: nat)
    requires Run(schedule).Some?
    requires var t := Run(schedule).value.trace; i < j < |t| && t[i].Frame? && t[j].Frame?
    ensures i < k < j && Run(schedule).value.trace[k].AckSet?
  {
    hide Run;
    var t := Run(schedule).value.trace;
    AckedFlow(schedule, j);
    TakeTake(t, i + 1, i);
    assert !InHand(t[..i + 1]);
    k := AckComes(t, i + 1, j);
  }

  /** Frames counted are frames sent, but for one being sent, and they never exceed the acknowledgements. */
  lemma FramesCounted(schedule: seq<Action>)
    requires Run(schedule).Some?
    ensures var s := Run(schedule).value;
            s.frames <= Frames(s.trace) <= Acks(s.trace) && Frames(s.trace) <= s.frames + 1
  {
    Reachable(schedule);
  }

  lemma {:induction false} StatusesTake(t: seq<Event>)
    requires TraceOk(t) && (Statuses(t) != [] ==> !Statuses(t)[0])
    ensures forall i :: 0 <= i < |Statuses(t)| ==> Statuses(t)[i] == (i % 2 == 1)
  {
    if t != [] {
      assert Statuses(Init(t)) != [] ==> Statuses(t)[0] == Statuses(Init(t))[0];
      StatusesTake(Init(t));
    }
  }

  /** The viewer is told "unavailable", then "live", then "unavailable", and so on. */
  lemma StatusesAlternate(schedule: seq<Action>)
    requires Run(schedule).Some?
    ensures var told := Statuses(Run(schedule).value.trace);
            forall i :: 0 <= i < |told| ==> told[i] == (i % 2 == 1)
  {
    Reachable(schedule);
    StatusesTake(Run(schedule).value.trace);
  }

  /** What the viewer was told last is how the last grab came out; before any outage it is told nothing. */
  lemma StatusIsTold(schedule: seq<Action>)
    requires Run(schedule).Some?
    ensures var t := Run(schedule).value.trace;
            var told := Statuses(t);
            if OutNow(t) then told != [] && !told[|told| - 1] else told == [] || told[|told| - 1]
  {
    hide Run, Acks, Frames, InHand, StopRequested, Statuses, Shown, Owed, OutNow, GrabOpen, TraceOk;
    Reachable(schedule);
  }

  predicate Quiet(t: seq<Event>, i: nat, j: nat)
    requires i <= j <= |t|
  {
    forall k :: i <= k < j ==> !t[k].Frame? && t[k] != Grabbed(None)
  }

  lemma {:induction false} ShownStays(t: seq<Event>, i: nat, j: nat)
    requires i <= j <= |t| && Quiet(t, i, j)
    ensures Shown(t[..j]) == Shown(t[..i])
  {
    if i < j {
      ShownStays(t, i, j - 1);
      TakeTake(t, j, j - 1);
    }
  }

  /** Two frames in a row differ, unless the desktop was unreadable in between. */
  lemma RepeatsNotSent(schedule: seq<Action>, i: nat, j: nat)
    requires Run(schedule).Some?
    requires var t := Run(schedule).value.trace;
             i < j < |t| && t[i].Frame? && t[j].Frame? && Quiet(t, i + 1, j)
    ensures var t := Run(schedule).value.trace; t[i].digest != t[j].digest
  {
    hide Owed, Statuses, GrabOpen, TraceOk, Run;
    TraceReachable(schedule);
    var t := Run(schedule).value.trace;
    TraceOkAt(t, j);
    ShownStays(t, i + 1, j);
    TakeTake(t, i + 1, i);
  }

  lemma {:induction false} OwedStays(t: seq<Event>, i: nat, j: nat)
    requires i <= j <= |t| && TraceOk(t) && !GrabOpen(t[..i])
    requires forall k :: i <= k < j ==> !t[k].Frame? && !t[k].GrabStarted?
    ensures Owed(t[..j]) == Owed(t[..i]) && !GrabOpen(t[..j])
  {
    if i < j {
      OwedStays(t, i, j - 1);
      TakeTake(t, j, j - 1);
      TraceOkAt(t, j - 1);
    }
  }

  /**
   No change is skipped: a picture that differs from the last frame since an outage is sent before anything
   else is grabbed.
   */
  lemma ChangesAreSent(schedule: seq<Action>, i: nat, j: nat)
    requires Run(schedule).Some?
    requires var t := Run(schedule).value.trace;
             && i < j < |t| && t[i].Grabbed? && t[i].shot.Some? && Shown(t[..i]) != t[i].shot
             && t[j].GrabStarted? && forall k :: i < k < j ==> !t[k].GrabStarted?
    ensures var t := Run(schedule).value.trace; exists k :: i < k < j && t[k] == Frame(t[i].shot.value)
  {
    hide Statuses, Run;
    TraceReachable(schedule);
    var t := Run(schedule).value.trace;
    TakeTake(t, i + 1, i);
    assert t[..i + 1] == t[..i] + [t[i]];
    Append(t[..i], t[i]);
    TraceOkAt(t, j);
    if forall k :: i < k < j ==> !t[k].Frame? {
      OwedStays(t, i + 1, j);
    } else {
      var k := FirstFrame(t, i + 1, j);
      OwedStays(t, i + 1, k);
      TraceOkAt(t, k);
    }
  }

  lemma {:induction false} FirstFrame(t: seq<Event>, i: nat, j: nat) returns (k: nat)
    requires i <= j <= |t| && exists m :: i <= m < j && t[m].Frame?
    ensures i <= k < j && t[k].Frame? && forall m :: i <= m < k ==> !t[m].Frame?
    decreases j - i
  {
    if t[i].Frame? { k := i; } else { k := FirstFrame(t, i + 1, j); }
  }

  /** After an outage nothing counts as shown until a frame is sent. */
  lemma {:induction false} NothingShown(t: seq<Event>, o: nat, i: nat)
    requires o < i <= |t| && t[o] == Grabbed(None) && forall k :: o < k < i ==> !t[k].Frame?
    ensures Shown(t[..i]) == None
    decreases i
  {
    TakeTake(t, i, i - 1);
    if i > o + 1 { NothingShown(t, o, i - 1); }
  }

  /**
   The picture that ends an outage is sent, even one the viewer had before: if another grab starts after it,
   the frame has gone out in between.
   */
  lemma FirstAfterOutageIsSent(schedule: seq<Action>, o: nat, i: nat, j: nat)
    requires Run(schedule).Some?
    requires var t := Run(schedule).value.trace;
             && o < i < j < |t| && t[o] == Grabbed(None) && t[i].Grabbed? && t[i].shot.Some?
             && (forall k :: o < k < i ==> !t[k].Frame?)
             && t[j].GrabStarted? && forall k :: i < k < j ==> !t[k].GrabStarted?
    ensures var t := Run(schedule).value.trace; exists k :: i < k < j && t[k] == Frame(t[i].shot.value)
  {
    hide Run;
    NothingShown(Run(schedule).value.trace, o, i);
    ChangesAreSent(schedule, i, j);
  }

  /** The stream ends only after the viewer asked it to stop. */
  lemma EndsOnlyWhenStopped(schedule: seq<Action>)
    requires Run(schedule).Some? && Run(schedule).value.place.Ended?
    ensures StopRequested(Run(schedule).value.trace)
  {
    Reachable(schedule);
  }

  // ---------------------------------------------------------------- it moves on

  predicate OwnStep(a: Action) { !a.SetAck? && !a.SetStop? }

  lemma OneStep(schedule: seq<Action>, a: Action)
    requires Run(schedule).Some? && Enabled(Run(schedule).value, a)
    ensures Run(schedule + [a]) == Some(Next(Run(schedule).value, a))
  {
    hide Next;
    assert (schedule + [a])[..|schedule|] == schedule;
  }

  lemma TwoSteps(schedule: seq<Action>, a: Action, b: Action)
    requires Run(schedule).Some? && Enabled(Run(schedule).value, a) && Enabled(Next(Run(schedule).value, a), b)
    ensures Run(schedule + [a, b]) == Some(Next(Next(Run(schedule).value, a), b))
  {
    hide Next, Run;
    OneStep(schedule, a);
    OneStep(schedule + [a], b);
    assert schedule + [a] + [b] == schedule + [a, b];
  }

  /** The coroutine is only ever held up by a missing acknowledgement. */
  lemma NeverStuck(schedule: seq<Action>)
    requires Run(schedule).Some?
    ensures var s := Run(schedule).value;
            (exists a :: OwnStep(a) && Enabled(s, a)) <==>
            !s.place.Ended? && (s.place.WaitingForAck? ==> InHand(s.trace) || StopRequested(s.trace))
  {
    hide Run;
    Reachable(schedule);
    var s := Run(schedule).value;
    var mine := match s.place
      case Top => CheckTop
      case WaitingForAck => WakeUp
      case Grabbing => GrabFails
      case Encoding(_) => EncodeDone
      case Sending(_) => SendDone
      case Sleeping => SleepDone
      case _ => StatusDone;
    assert OwnStep(mine);
  }

  /** Between frames, an acknowledgement in hand leads to a grab within two steps. */
  lemma GrabFollows(schedule: seq<Action>) returns (more: seq<Action>)
    requires Run(schedule).Some?
    requires var s := Run(schedule).value;
             InHand(s.trace) && !StopRequested(s.trace) && (s.place.Top? || s.place.WaitingForAck? || s.place.Sleeping?)
    ensures |more| <= 2 && (forall a :: a in more ==> OwnStep(a)) && Run(schedule + more).Some?
    ensures Run(schedule + more).value.trace == Run(schedule).value.trace + [GrabStarted]
  {
    hide Run, Inv;
    var s := Run(schedule).value;
    Reachable(schedule);
    InHandIs(s);
    match s.place {
      case Top =>
        more := [CheckTop];
        OneStep(schedule, CheckTop);
      case WaitingForAck =>
        more := [WakeUp];
        OneStep(schedule, WakeUp);
      case Sleeping =>
        more := [SleepDone, CheckTop];
        TwoSteps(schedule, SleepDone, CheckTop);
    }
  }

  lemma InHandIs(s: State)
    requires Inv(s)
    ensures s.acked == InHand(s.trace) && s.stopped == StopRequested(s.trace)
    ensures s.place.Ended? ==> s.stopped
  {}

  /** A picture the viewer does not have is sent within two steps, unless the viewer stops the stream. */
  lemma FrameFollows(schedule: seq<Action>, d: Digest) returns (more: seq<Action>)
    requires Run(schedule).Some?
    requires var t := Run(schedule).value.trace; Owed(t) == Some(d) && !StopRequested(t)
    ensures |more| <= 2 && (forall a :: a in more ==> OwnStep(a)) && Run(schedule + more).Some?
    ensures Run(schedule + more).value.trace == Run(schedule).value.trace + [Frame(d)]
  {
    hide Run, Inv;
    var s := Run(schedule).value;
    Reachable(schedule);
    InHandIs(s);
    OwedIsUnderWay(s, d);
    if s.place.Encoding? {
      more := [EncodeDone];
      OneStep(schedule, EncodeDone);
    } else {
      more := [StatusDone, EncodeDone];
      TwoSteps(schedule, StatusDone, EncodeDone);
    }
  }

  lemma OwedIsUnderWay(s: State, d: Digest)
    requires Inv(s) && Owed(s.trace) == Some(d) && !s.stopped
    ensures s.place == Encoding(d) || (s.place == TellingLive(d) && s.lastDigest == None)
  {}
}
