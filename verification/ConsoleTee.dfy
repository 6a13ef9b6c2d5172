/**
 The console tee of a visible job (src/run_supervision.py): one thread copies the child's
 pipe to output.log and offers each chunk to a bounded queue; another drains the queue
 onto the console, which may block for ever or break.

 Each thread is a little program whose atomic steps interleave in any order.  The log file
 itself is taken to accept every write.
 */
module ConsoleTee {
  import opened Options
  import opened Seqs

  type Byte = bv8
  type Chunk = seq<Byte>

  const READ_SIZE: nat := 4096
  const QUEUE_MAX: nat := 64

  datatype Item = Data(chunk: Chunk) | End

  /** The reader: about to read, to write the log, to offer the chunk, to send the end mark, to join, or finished. */
  datatype Reader = Reading | Logging(chunk: Chunk) | Offering(chunk: Chunk) | Ending | Joining | Finished

  /** The console writer: waiting on the queue, writing a chunk, or gone. */
  datatype Writer = Waiting | Writing(chunk: Chunk) | Gone

  datatype State = State(
    hasConsole: bool,
    left: seq<Byte>,        // what the pipe still holds
    reader: Reader,
    log: seq<Byte>,         // output.log
    dropped: nat,
    queue: seq<Item>,
    writer: Writer,
    broken: bool,
    shown: seq<Chunk>,      // chunks the console accepted
    read: seq<Chunk>,       // history: chunks read from the pipe
    queued: seq<Chunk>,     // history: chunks the queue accepted
    taken: seq<Chunk>)      // history: chunks the writer took

  function Start(pipe: seq<Byte>, hasConsole: bool): State {
    State(hasConsole, pipe, Reading, [], 0, [], if hasConsole then Waiting else Gone, false, [], [], [], [])
  }

  datatype Action =
    | Read(n: nat)    // the pipe hands over n bytes
    | Eof             // the child closed the pipe
    | Log
    | Offer
    | SendEnd
    | Join            // the writer finished, or the drain timeout passed
    | Take            // the writer takes the front of the queue
    | Accept          // the console accepts the chunk
    | Break           // the console raises
    | Discard         // a broken console's chunk is thrown away

  predicate IsReaderAction(a: Action) {
    a.Read? || a.Eof? || a.Log? || a.Offer? || a.SendEnd? || a.Join?
  }

  predicate Enabled(s: State, a: Action) {
    match a
    case Read(n) => s.reader.Reading? && 0 < n <= READ_SIZE && n <= |s.left|
    case Eof => s.reader.Reading? && s.left == []
    case Log => s.reader.Logging?
    case Offer => s.reader.Offering?
    case SendEnd => s.reader.Ending?
    case Join => s.reader.Joining?
    case Take => s.writer.Waiting? && s.queue != []
    case Accept => s.writer.Writing? && !s.broken
    case Break => s.writer.Writing? && !s.broken
    case Discard => s.writer.Writing? && s.broken
  }

  function Next(s: State, a: Action): State
    requires Enabled(s, a)
  {
    match a
    case Read(n) => s.(left := s.left[n..], reader := Logging(s.left[..n]), read := s.read + [s.left[..n]])
    case Eof => s.(reader := if s.hasConsole then Ending else Finished)
    case Log =>
      s.(log := s.log + s.reader.chunk, reader := if s.hasConsole then Offering(s.reader.chunk) else Reading)
    case Offer =>
      if |s.queue| < QUEUE_MAX then
        s.(queue := s.queue + [Data(s.reader.chunk)], queued := s.queued + [s.reader.chunk], reader := Reading)
      else s.(dropped := s.dropped + 1, reader := Reading)
    case SendEnd => s.(queue := if |s.queue| < QUEUE_MAX then s.queue + [End] else s.queue, reader := Joining)
    case Join => s.(reader := Finished)
    case Take =>
      var rest := s.(queue := s.queue[1..]);
      (match s.queue[0]
       case End => rest.(writer := Gone)
       case Data(chunk) => rest.(writer := Writing(chunk), taken := s.taken + [chunk]))
    case Accept => s.(shown := s.shown + [s.writer.chunk], writer := Waiting)
    case Break => s.(broken := true, writer := Waiting)
    case Discard => s.(writer := Waiting)
  }

  /** The state after a schedule, if every step of it can be taken. */
  function Run(s: State, schedule: seq<Action>): Option<State> {
    if schedule == [] then Some(s)
    else
      var before := Run(s, schedule[..|schedule| - 1]);
      var a := schedule[|schedule| - 1];
      if before.Some? && Enabled(before.value, a) then Some(Next(before.value, a)) else None
  }

  // ---------------------------------------------------------------- the invariant

  function Chunks(queue: seq<Item>): seq<Chunk> {
    if queue == [] then []
    else Chunks(queue[..|queue| - 1]) + (if queue[|queue| - 1].Data? then [queue[|queue| - 1].chunk] else [])
  }

  /** What the reader holds between reading a chunk and dealing with it. */
  function Unlogged(s: State): seq<Byte> {
    if s.reader.Logging? then s.reader.chunk else []
  }

  function Held(s: State): seq<Chunk> {
    if s.reader.Logging? || s.reader.Offering? then [s.reader.chunk] else []
  }

  function InFlight(s: State): seq<Chunk> {
    if s.writer.Writing? then [s.writer.chunk] else []
  }

  /** `a` is `b` with some members left out. */
  predicate Subsequence<T(==)>(a: seq<T>, b: seq<T>) {
    if a == [] then true
    else if b == [] then false
    else (a[|a| - 1] == b[|b| - 1] && Subsequence(a[..|a| - 1], b[..|b| - 1])) || Subsequence(a, b[..|b| - 1])
  }

  /** Nothing that reaches the log depends on the console. */
  ghost predicate LogOk(s: State, pipe: seq<Byte>) {
    && Flatten(s.read) + s.left == pipe
    && s.log + Unlogged(s) == Flatten(s.read)
    && (s.reader.Ending? || s.reader.Joining? || s.reader.Finished? ==> s.left == [])
  }

  /** Every chunk read is queued, dropped or still held, and the queue is within its bound. */
  ghost predicate QueueOk(s: State) {
    && |s.queue| <= QUEUE_MAX
    && s.queued == s.taken + Chunks(s.queue)
    && (s.hasConsole ==> |s.queued| + s.dropped + |Held(s)| == |s.read|)
    && (s.hasConsole && s.dropped == 0 ==> s.queued + Held(s) == s.read)
    && (s.hasConsole ==> Subsequence(s.queued + Held(s), s.read))
    && (!s.hasConsole ==> s.queued == [] && s.writer.Gone? && !s.reader.Offering? && !s.reader.Ending? && !s.reader.Joining?)
  }

  /** The console shows a prefix of what the writer took, all of it while it works. */
  ghost predicate ConsoleOk(s: State) {
    && s.shown <= s.taken
    && (!s.broken ==> s.shown + InFlight(s) == s.taken)
  }

  ghost predicate Inv(s: State, pipe: seq<Byte>) {
    LogOk(s, pipe) && QueueOk(s) && ConsoleOk(s)
  }

  lemma StartOk(pipe: seq<Byte>, hasConsole: bool)
    ensures Inv(Start(pipe, hasConsole), pipe)
  {
    NoneLeft(pipe);
  }

  lemma LogStep(s: State, a: Action, pipe: seq<Byte>)
    requires LogOk(s, pipe) && Enabled(s, a)
    ensures LogOk(Next(s, a), pipe)
  {
    match a {
      case Read(n) =>
        FlattenAppend(s.read, s.left[..n]);
        Split(s.left, n);
        Assoc(Flatten(s.read), s.left[..n], s.left[n..]);
        NoneLeft(s.log);
      case Log => NoneLeft(s.log + s.reader.chunk);
      case _ =>
    }
  }

  lemma {:induction false} SubsequenceGrow<T>(a: seq<T>, b: seq<T>, x: T)
    requires Subsequence(a, b)
    ensures Subsequence(a + [x], b + [x]) && Subsequence(a, b + [x])
  {
    assert (a + [x])[..|a|] == a && (b + [x])[..|b|] == b;
  }

  lemma {:induction false} SubsequenceShrink<T>(a: seq<T>, b: seq<T>)
    requires a != [] && Subsequence(a, b)
    ensures Subsequence(a[..|a| - 1], b)
  {
    if b != [] {
      if a[|a| - 1] == b[|b| - 1] && Subsequence(a[..|a| - 1], b[..|b| - 1]) {
        SubsequenceGrow(a[..|a| - 1], b[..|b| - 1], b[|b| - 1]);
        assert b == b[..|b| - 1] + [b[|b| - 1]];
      } else {
        SubsequenceShrink(a, b[..|b| - 1]);
        SubsequenceGrow(a[..|a| - 1], b[..|b| - 1], b[|b| - 1]);
        assert b == b[..|b| - 1] + [b[|b| - 1]];
      }
    }
  }

  lemma {:induction false} ChunksFront(queue: seq<Item>)
    requires queue != []
    ensures Chunks(queue) == (if queue[0].Data? then [queue[0].chunk] else []) + Chunks(queue[1..])
  {
    if |queue| == 1 {
      assert queue[..0] == [] && queue[1..] == [];
    } else {
      var init := queue[..|queue| - 1];
      ChunksFront(init);
      assert init[1..] == queue[1..][..|queue| - 2];
    }
  }

  lemma ChunksAppend(queue: seq<Item>, item: Item)
    ensures Chunks(queue + [item]) == Chunks(queue) + if item.Data? then [item.chunk] else []
  {
    assert (queue + [item])[..|queue|] == queue;
  }

  lemma OfferFits(s: State)
    requires QueueOk(s) && Enabled(s, Offer) && |s.queue| < QUEUE_MAX
    ensures QueueOk(Next(s, Offer))
  {
    hide Chunks, Subsequence;
    var chunk := s.reader.chunk;
    ChunksAppend(s.queue, Data(chunk));
    Assoc(s.taken, Chunks(s.queue), [chunk]);
    NoneLeft(s.queued + [chunk]);
  }

  lemma OfferDrops(s: State)
    requires QueueOk(s) && Enabled(s, Offer) && |s.queue| >= QUEUE_MAX
    ensures QueueOk(Next(s, Offer))
  {
    hide Chunks, Subsequence;
    NoneLeft(s.queued);
    if s.hasConsole { WithoutLast(s.queued, s.reader.chunk, s.read); }
  }

  lemma WithoutLast<T>(a: seq<T>, x: T, b: seq<T>)
    requires Subsequence(a + [x], b)
    ensures Subsequence(a, b)
  {
    SubsequenceShrink(a + [x], b);
    ConcatLeft(a, [x], |a|);
    NoneLeft(a);
    assert (a + [x])[..|a|] == a;
  }

  lemma ReadStep(s: State, n: nat)
    requires QueueOk(s) && Enabled(s, Read(n))
    ensures QueueOk(Next(s, Read(n)))
  {
    hide Chunks, Subsequence;
    var chunk := s.left[..n];
    NoneLeft(s.queued);
    if s.hasConsole {
      assert s.queued + Held(s) == s.queued;
      SubsequenceGrow(s.queued, s.read, chunk);
    }
  }

  lemma EndStep(s: State)
    requires QueueOk(s) && Enabled(s, SendEnd)
    ensures QueueOk(Next(s, SendEnd))
  {
    hide Chunks, Subsequence;
    ChunksAppend(s.queue, End);
    NoneLeft(Chunks(s.queue));
  }

  lemma ReaderQueueStep(s: State, a: Action)
    requires QueueOk(s) && Enabled(s, a) && IsReaderAction(a)
    ensures QueueOk(Next(s, a))
  {
    hide Chunks, Subsequence;
    match a {
      case Read(n) => ReadStep(s, n);
      case Offer => if |s.queue| < QUEUE_MAX { OfferFits(s); } else { OfferDrops(s); }
      case SendEnd => EndStep(s);
      case _ =>
    }
  }

  lemma WriterQueueStep(s: State, a: Action)
    requires QueueOk(s) && Enabled(s, a) && !IsReaderAction(a)
    ensures QueueOk(Next(s, a))
  {
    hide Chunks, Subsequence;
    if a == Take {
      ChunksFront(s.queue);
      NoneLeft(Chunks(s.queue[1..]));
      if s.queue[0].Data? { Assoc(s.taken, [s.queue[0].chunk], Chunks(s.queue[1..])); }
    }
  }

  lemma ConsoleStep(s: State, a: Action)
    requires ConsoleOk(s) && Enabled(s, a)
    ensures ConsoleOk(Next(s, a))
  {
    NoneLeft(s.shown);
    match a {
      case Accept => NoneLeft(s.shown + [s.writer.chunk]);
      case _ =>
    }
  }

  /** The invariant holds after every schedule of the two threads. */
  lemma {:induction false} Reachable(pipe: seq<Byte>, hasConsole: bool, schedule: seq<Action>)
    ensures var s := Run(Start(pipe, hasConsole), schedule);
            s.Some? ==> Inv(s.value, pipe) && s.value.hasConsole == hasConsole
  {
    hide LogOk, QueueOk, ConsoleOk;
    if schedule == [] {
      StartOk(pipe, hasConsole);
    } else {
      var init := schedule[..|schedule| - 1];
      var a := schedule[|schedule| - 1];
      Reachable(pipe, hasConsole, init);
      var before := Run(Start(pipe, hasConsole), init);
      if before.Some? && Enabled(before.value, a) {
        LogStep(before.value, a, pipe);
        ConsoleStep(before.value, a);
        if IsReaderAction(a) { ReaderQueueStep(before.value, a); } else { WriterQueueStep(before.value, a); }
      }
    }
  }

  // ---------------------------------------------------------------- the promises

  /** output.log is exactly the pipe's bytes once the reader is past the loop, whatever the console did. */
  lemma LogIsComplete(pipe: seq<Byte>, hasConsole: bool, schedule: seq<Action>)
    requires Run(Start(pipe, hasConsole), schedule).Some?
    ensures var s := Run(Start(pipe, hasConsole), schedule).value;
            && s.log <= pipe
            && (s.reader.Ending? || s.reader.Joining? || s.reader.Finished? ==> s.log == pipe)
  {
    hide QueueOk, ConsoleOk;
    Reachable(pipe, hasConsole, schedule);
    var s := Run(Start(pipe, hasConsole), schedule).value;
    NoneLeft(s.log);
    NoneLeft(Flatten(s.read));
    Assoc(s.log, Unlogged(s), s.left);
  }

  /** Every chunk read is queued or dropped, in order, and the queue stays within its bound. */
  lemma ChunksAccounted(pipe: seq<Byte>, schedule: seq<Action>)
    requires Run(Start(pipe, true), schedule).Some?
    ensures var s := Run(Start(pipe, true), schedule).value;
            && |s.queue| <= QUEUE_MAX
            && (s.reader.Reading? || s.reader.Finished? ==> |s.queued| + s.dropped == |s.read|)
            && Subsequence(s.shown, s.read)
  {
    hide LogOk, Chunks, Subsequence;
    Reachable(pipe, true, schedule);
    var s := Run(Start(pipe, true), schedule).value;
    PrefixSubsequence(s.shown, s.queued + Held(s), s.read);
  }

  lemma {:induction false} PrefixSubsequence<T>(a: seq<T>, b: seq<T>, c: seq<T>)
    requires a <= b && Subsequence(b, c)
    ensures Subsequence(a, c)
    decreases |b|
  {
    if |a| < |b| {
      SubsequenceShrink(b, c);
      PrefixSubsequence(a, b[..|b| - 1], c);
    } else {
      assert a == b;
    }
  }

  /** How many steps the reader still has to take; the console thread's steps do not touch it. */
  function Remaining(s: State): nat {
    3 * |s.left| +
    match s.reader
    case Logging(_) => 5
    case Offering(_) => 4
    case Reading => 3
    case Ending => 2
    case Joining => 1
    case Finished => 0
  }

  /** The reader is never blocked: it always has a step of its own, and each one brings it nearer the end. */
  lemma ReaderNeverBlocked(s: State)
    ensures s.reader != Finished ==> exists a :: IsReaderAction(a) && Enabled(s, a)
    ensures forall a :: Enabled(s, a) && IsReaderAction(a) ==> Remaining(Next(s, a)) < Remaining(s)
    ensures forall a :: Enabled(s, a) && !IsReaderAction(a) ==>
              Next(s, a).reader == s.reader && Next(s, a).left == s.left
  {
    var mine := match s.reader
      case Logging(_) => Log
      case Offering(_) => Offer
      case Reading => if s.left == [] then Eof else Read(1)
      case Ending => SendEnd
      case _ => Join;
    if s.reader != Finished { assert IsReaderAction(mine) && Enabled(s, mine); }
  }

  function ReaderSteps(schedule: seq<Action>): nat {
    if schedule == [] then 0
    else ReaderSteps(schedule[..|schedule| - 1]) + if IsReaderAction(schedule[|schedule| - 1]) then 1 else 0
  }

  /** So in every schedule the reader takes at most three steps a byte and three more, even if the console never moves. */
  lemma {:induction false} ReaderFinishes(pipe: seq<Byte>, hasConsole: bool, schedule: seq<Action>)
    requires Run(Start(pipe, hasConsole), schedule).Some?
    ensures ReaderSteps(schedule) + Remaining(Run(Start(pipe, hasConsole), schedule).value) <= 3 * |pipe| + 3
  {
    hide Next, Enabled;
    if schedule != [] {
      ReaderFinishes(pipe, hasConsole, schedule[..|schedule| - 1]);
      ReaderNeverBlocked(Run(Start(pipe, hasConsole), schedule[..|schedule| - 1]).value);
    }
  }

  /** With no drop and a working console, once the queue is drained the console shows the very bytes of the log. */
  lemma DrainedConsoleShowsAll(pipe: seq<Byte>, schedule: seq<Action>)
    requires Run(Start(pipe, true), schedule).Some?
    requires var s := Run(Start(pipe, true), schedule).value;
             PastLoop(s) && s.dropped == 0 && !s.broken && !s.writer.Writing? && Chunks(s.queue) == []
    ensures var s := Run(Start(pipe, true), schedule).value; Flatten(s.shown) == s.log == pipe
  {
    hide Chunks;
    Reachable(pipe, true, schedule);
    LogIsComplete(pipe, true, schedule);
    var s := Run(Start(pipe, true), schedule).value;
    NoneLeft(s.shown);
    NoneLeft(s.queued);
    NoneLeft(s.taken);
    NoneLeft(s.log);
    NoneLeft(Flatten(s.read));
  }

  // ---------------------------------------------------------------- the end mark

  predicate PastLoop(s: State) {
    s.reader.Joining? || s.reader.Finished?
  }

  /** The end mark is last in the queue and there only after the reader's loop; a writer that is gone has taken it. */
  ghost predicate EndMarkOk(s: State) {
    && (forall i :: 0 <= i < |s.queue| - 1 ==> s.queue[i].Data?)
    && (s.queue != [] && s.queue[|s.queue| - 1].End? ==> PastLoop(s))
    && (s.hasConsole && s.writer.Gone? ==> s.queue == [] && PastLoop(s))
  }

  lemma EndMarkStep(s: State, a: Action)
    requires EndMarkOk(s) && s.hasConsole && Enabled(s, a)
    ensures EndMarkOk(Next(s, a)) && Next(s, a).hasConsole
  {}

  lemma {:induction false} EndMark(pipe: seq<Byte>, schedule: seq<Action>)
    requires Run(Start(pipe, true), schedule).Some?
    ensures var s := Run(Start(pipe, true), schedule).value; EndMarkOk(s) && s.hasConsole
  {
    hide Next, Enabled;
    if schedule != [] {
      hide EndMarkOk;
      EndMark(pipe, schedule[..|schedule| - 1]);
      EndMarkStep(Run(Start(pipe, true), schedule[..|schedule| - 1]).value, schedule[|schedule| - 1]);
    }
  }

  /**
   What the join can tell: when the writer has ended, nothing was dropped and the console never broke, the console
   shows the very bytes of the log.
   */
  lemma HealthyConsoleShowsAll(pipe: seq<Byte>, schedule: seq<Action>)
    requires Run(Start(pipe, true), schedule).Some?
    requires var s := Run(Start(pipe, true), schedule).value; s.writer.Gone? && s.dropped == 0 && !s.broken
    ensures var s := Run(Start(pipe, true), schedule).value; Flatten(s.shown) == s.log == pipe
  {
    hide Run;
    EndMark(pipe, schedule);
    DrainedConsoleShowsAll(pipe, schedule);
  }

  // ---------------------------------------------------------------- what is dropped, and what reaches the console

  lemma {:induction false} AllDataCounted(queue: seq<Item>)
    requires forall i :: 0 <= i < |queue| ==> queue[i].Data?
    ensures |Chunks(queue)| == |queue|
  {
    if queue != [] { AllDataCounted(queue[..|queue| - 1]); }
  }

  /** A full queue has been filled with chunks, and before the end mark is sent there is no other way to lose one. */
  ghost predicate LossOk(s: State) {
    && (s.dropped > 0 ==> |s.queued| >= QUEUE_MAX)
    && (PastLoop(s) ==> s.writer.Gone? || (s.queue != [] && s.queue[|s.queue| - 1].End?) || |s.queued| >= QUEUE_MAX)
  }

  lemma FullQueue(s: State)
    requires QueueOk(s) && EndMarkOk(s) && !PastLoop(s) && |s.queue| >= QUEUE_MAX
    ensures |s.queued| >= QUEUE_MAX
  {
    hide Chunks, Subsequence;
    AllDataCounted(s.queue);
  }

  lemma LossStep(s: State, a: Action)
    requires LossOk(s) && QueueOk(s) && EndMarkOk(s) && s.hasConsole && Enabled(s, a)
    ensures LossOk(Next(s, a))
  {
    hide Chunks, Subsequence;
    if !PastLoop(s) && |s.queue| >= QUEUE_MAX { FullQueue(s); }
  }

  lemma {:induction false} Losses(pipe: seq<Byte>, schedule: seq<Action>)
    requires Run(Start(pipe, true), schedule).Some?
    ensures LossOk(Run(Start(pipe, true), schedule).value)
  {
    hide Next, Enabled, EndMarkOk, QueueOk, LogOk, ConsoleOk;
    if schedule != [] {
      hide LossOk;
      var before := schedule[..|schedule| - 1];
      Losses(pipe, before);
      Reachable(pipe, true, before);
      EndMark(pipe, before);
      LossStep(Run(Start(pipe, true), before).value, schedule[|schedule| - 1]);
    }
  }

  /** In every schedule a chunk is dropped when the queue is full as it is offered, and at no other time. */
  lemma DropsExactlyWhenFull(pipe: seq<Byte>, schedule: seq<Action>, a: Action)
    requires Run(Start(pipe, true), schedule).Some? && Enabled(Run(Start(pipe, true), schedule).value, a)
    ensures var s := Run(Start(pipe, true), schedule).value;
            && (Next(s, a).dropped > s.dropped <==> a == Offer && |s.queue| == QUEUE_MAX)
            && (a == Offer && |s.queue| < QUEUE_MAX ==> Next(s, a).queue == s.queue + [Data(s.reader.chunk)])
  {
    hide Chunks, Subsequence, LogOk, ConsoleOk;
    Reachable(pipe, true, schedule);
  }

  /** So a run of no more chunks than the queue holds loses none. */
  lemma ShortRunDropsNothing(pipe: seq<Byte>, schedule: seq<Action>)
    requires Run(Start(pipe, true), schedule).Some? && |Run(Start(pipe, true), schedule).value.read| <= QUEUE_MAX
    ensures Run(Start(pipe, true), schedule).value.dropped == 0
  {
    hide Run, Chunks, Subsequence, LogOk, ConsoleOk;
    Losses(pipe, schedule);
    Reachable(pipe, true, schedule);
  }

  predicate WriterCanMove(s: State) {
    Enabled(s, Take) || Enabled(s, Accept) || Enabled(s, Discard)
  }

  /** What the writer still has to do. */
  function WriterLeft(s: State): nat {
    2 * |s.queue| + if s.writer.Writing? then 1 else 0
  }

  /** The writer has a step as long as something is queued or in its hands, and each brings it nearer its end. */
  lemma WriterMoves(s: State)
    ensures s.writer.Writing? || (s.writer.Waiting? && s.queue != []) <==> WriterCanMove(s)
    ensures forall a :: Enabled(s, a) && !IsReaderAction(a) ==> WriterLeft(Next(s, a)) < WriterLeft(s)
  {}

  /**
   Once the child is done and the writer has nothing left to do, a console that never broke has shown the very
   bytes of the log, if the run had fewer chunks than the queue holds.
   */
  lemma ShortOutputIsShown(pipe: seq<Byte>, schedule: seq<Action>)
    requires Run(Start(pipe, true), schedule).Some?
    requires var s := Run(Start(pipe, true), schedule).value;
             PastLoop(s) && |s.read| < QUEUE_MAX && !s.broken && !WriterCanMove(s)
    ensures var s := Run(Start(pipe, true), schedule).value; s.writer.Gone? && Flatten(s.shown) == s.log == pipe
  {
    hide Run, Chunks, Subsequence, LogOk, ConsoleOk;
    var s := Run(Start(pipe, true), schedule).value;
    ShortRunDropsNothing(pipe, schedule);
    Losses(pipe, schedule);
    Reachable(pipe, true, schedule);
    HealthyConsoleShowsAll(pipe, schedule);
  }
}
