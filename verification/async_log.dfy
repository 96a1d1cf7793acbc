/** The asynchronous log helper: any number of logging threads push messages into the bounded
  queue, and one worker thread empties it. */
module AsyncLog {
  import opened MpmcQueue
  import opened Wrappers

  datatype Msg<M> = Log(m: M) | Flush | Terminate

  datatype Policy = BlockRetry | DiscardLogMsg

  /** What the worker meets while it passes a message on: an exception of the formatter, one of the sink
      at some position, or none. The loop of the worker catches it, and the message is not taken up again. */
  datatype Delivery = FormatterThrows | SinkThrows(at: nat) | NothingThrows

  /** `accepting` are the sinks whose level admits the message. */
  datatype Handling = Handling(accepting: set<nat>, delivery: Delivery)

  /** The sinks are tried in order; one that throws and those behind it do not get the message. */
  predicate Gets(h: Handling, sink: nat) {
    && sink in h.accepting
    && match h.delivery
       case FormatterThrows => false
       case SinkThrows(at) => sink < at
       case NothingThrows => true
  }

  predicate Possible(h: Handling, sinks: nat) {
    h.delivery.SinkThrows? ==> h.delivery.at < sinks && h.delivery.at in h.accepting
  }

  /** What a sink has been given, and how much of it when the sink was last flushed. */
  datatype Sink<M> = Sink(given: seq<M>, flushed: nat)

  /** `handled` are the messages the worker has dealt with and `handlings` how; `flushes` records, for each
      flush of all sinks, how many messages had been handled by then. */
  datatype Worker<M> = Worker(flushRequested: bool, terminateRequested: bool, exited: bool, handled: seq<Msg<M>>,
                              handlings: seq<Handling>, sinks: seq<Sink<M>>, flushes: seq<nat>)

  datatype Logger<M> = Logger(queue: State<Msg<M>>, worker: Worker<M>)

  /** The worker runs as this thread of the queue. */
  const WORKER: nat := 0

  datatype LogAction<M> =
    | Pushing(thread: nat, action: Action<Msg<M>>)   // a step of push_msg in another thread
    | Popping(action: Action<Msg<M>>)                // a step of dequeue in the worker
    | Process(handling: Handling)                    // dequeue has returned a message
    | HandleEmpty(intervalExpired: bool, throwing: Option<nat>)   // dequeue has returned false

  /** With `BlockRetry`, a refused message is pushed again; only `DiscardLogMsg` lets it go. */
  predicate MayPush<M>(policy: Policy, s: Logger<M>, i: nat, a: Action<Msg<M>>) {
    && i != WORKER && Enabled(s.queue, i, a) && !a.BeginDequeue?
    && (a.Return? && s.queue.threads[i].Refused? ==> policy == DiscardLogMsg)
  }

  predicate CanDo<M>(policy: Policy, s: Logger<M>, a: LogAction<M>) {
    match a
    case Pushing(i, b) => MayPush(policy, s, i, b)
    case Popping(b) => !s.worker.exited && Enabled(s.queue, WORKER, b) && !b.Return? && !b.BeginEnqueue?
    case Process(h) =>
      Enabled(s.queue, WORKER, Return) && s.queue.threads[WORKER].Delivered? && Possible(h, |s.worker.sinks|)
    case HandleEmpty(expired, throwing) =>
      && Enabled(s.queue, WORKER, Return) && s.queue.threads[WORKER].FoundEmpty?
      && (throwing.Some? ==> throwing.value < |s.worker.sinks| && (s.worker.flushRequested || expired))
  }

  /** The cases of `process_next_msg` for a message. */
  function Processed<M>(w: Worker<M>, msg: Msg<M>, h: Handling): Worker<M> {
    var w := w.(handled := w.handled + [msg], handlings := w.handlings + [h]);
    match msg
    case Flush => w.(flushRequested := true)
    case Terminate => w.(flushRequested := true, terminateRequested := true)
    case Log(m) =>
      w.(sinks := seq(|w.sinks|, j requires 0 <= j < |w.sinks| =>
        w.sinks[j].(given := w.sinks[j].given + if Gets(h, j) then [m] else [])))
  }

  /** Flushing the first `n` sinks. */
  function Flushed<M>(sinks: seq<Sink<M>>, n: nat): seq<Sink<M>> {
    seq(|sinks|, j requires 0 <= j < |sinks| =>
      if j < n then sinks[j].(flushed := |sinks[j].given|) else sinks[j])
  }

  /** The empty queue is the only place where the worker flushes or stops; an exception of the flush of some
      sink ends the flush there and keeps the worker from stopping. */
  function FoundQueueEmpty<M>(w: Worker<M>, intervalExpired: bool, throwing: Option<nat>): Worker<M> {
    match throwing
    case Some(at) => w.(sinks := Flushed(w.sinks, at))
    case None =>
      var w :=
        if w.flushRequested || intervalExpired then
          w.(sinks := Flushed(w.sinks, |w.sinks|), flushes := w.flushes + [|w.handled|], flushRequested := false)
        else w;
      w.(exited := w.terminateRequested)
  }

  function Next<M>(policy: Policy, s: Logger<M>, a: LogAction<M>): Logger<M>
    requires CanDo(policy, s, a)
  {
    match a
    case Pushing(i, b) => s.(queue := Do(s.queue, i, b))
    case Popping(b) => s.(queue := Do(s.queue, WORKER, b))
    case Process(h) =>
      Logger(Do(s.queue, WORKER, Return), Processed(s.worker, s.queue.threads[WORKER].item, h))
    case HandleEmpty(expired, throwing) =>
      Logger(Do(s.queue, WORKER, Return), FoundQueueEmpty(s.worker, expired, throwing))
  }

  predicate InitLogger<M>(s: Logger<M>) {
    && Init(s.queue) && |s.queue.threads| > WORKER
    && var w := s.worker;
       && !w.flushRequested && !w.terminateRequested && !w.exited && w.flushes == []
       && |w.handled| == |w.handlings| == 0 && forall j :: 0 <= j < |w.sinks| ==> w.sinks[j] == Sink([], 0)
  }

  predicate LogRun<M(==)>(policy: Policy, trace: seq<Logger<M>>, actions: seq<LogAction<M>>) {
    && |trace| == |actions| + 1
    && InitLogger(trace[0])
    && forall k :: 0 <= k < |actions| ==>
         CanDo(policy, trace[k], actions[k]) && trace[k + 1] == Next(policy, trace[k], actions[k])
  }

  /// ## The invariant

  /** What a sink gets of messages that are handled so, in order. */
  function Received<M>(msgs: seq<Msg<M>>, handlings: seq<Handling>, sink: nat): seq<M>
    requires |msgs| == |handlings|
  {
    if msgs == [] then []
    else
      var n := |msgs| - 1;
      Received(msgs[..n], handlings[..n], sink)
      + if msgs[n].Log? && Gets(handlings[n], sink) then [msgs[n].m] else []
  }

  /** How many dequeue tickets the worker has finished with. */
  function Finished<M>(q: State<Msg<M>>): int
    requires |q.threads| > WORKER
  {
    var pc := q.threads[WORKER];
    if pc.DeqClaimed? || pc.DeqTaken? || pc.Delivered? then q.dequeuePos - 1 else q.dequeuePos
  }

  ghost predicate LogInv<M>(s: Logger<M>) {
    var q, w := s.queue, s.worker;
    && Inv(q) && |q.threads| > WORKER
    && var pc := q.threads[WORKER];
    && !(pc.EnqPos? || pc.EnqSeq? || pc.EnqClaimed? || pc.EnqWritten? || pc.Accepted? || pc.Refused?)
    && (forall i :: 0 < i < |q.threads| ==> OnlyPushes(q.threads[i]))
    && (pc.DeqClaimed? || pc.DeqTaken? ==> pc.pos == q.dequeuePos - 1)
    && (pc.Delivered? ==> q.dequeuePos > 0 && pc.item == q.history.items[q.dequeuePos - 1])
    && 0 <= Finished(q) && w.handled == q.history.items[..Finished(q)]
    && |w.handlings| == |w.handled|
    && (forall j :: 0 <= j < |w.sinks| ==> w.sinks[j].given == Received(w.handled, w.handlings, j))
    && (w.terminateRequested <==> Terminate in w.handled)
    && (w.exited ==> pc.Idle? && w.terminateRequested && LastFlush(w) == |w.handled|)
    && (w.terminateRequested ==> w.exited || w.flushRequested)
    && FlushInv(w)
  }

  /** How many messages had been handled at the last flush. */
  function LastFlush<M>(w: Worker<M>): nat {
    if w.flushes == [] then 0 else w.flushes[|w.flushes| - 1]
  }

  /** A flush or terminate message has been handled since the last flush. */
  predicate AskedToFlush<M>(w: Worker<M>) {
    exists k :: LastFlush(w) <= k < |w.handled| && (w.handled[k].Flush? || w.handled[k].Terminate?)
  }

  /** Each sink has been flushed with everything that was given to it before the last flush. */
  ghost predicate FlushInv<M>(w: Worker<M>) {
    && LastFlush(w) <= |w.handled|
    && (w.flushRequested <==> AskedToFlush(w))
    && forall j :: 0 <= j < |w.sinks| ==>
         GivenAt(w.handled, w.handlings, j, LastFlush(w)) <= w.sinks[j].flushed <= |w.sinks[j].given|
  }

  /** How much the sink had been given when `n` messages had been handled. */
  function GivenAt<M>(msgs: seq<Msg<M>>, handlings: seq<Handling>, sink: nat, n: nat): nat {
    if n <= |msgs| == |handlings| then |Received(msgs[..n], handlings[..n], sink)| else 0
  }

  predicate OnlyPushes<M>(pc: Pc<Msg<M>>) {
    !(pc.DeqPos? || pc.DeqSeq? || pc.DeqClaimed? || pc.DeqTaken? || pc.Delivered? || pc.FoundEmpty?)
  }

  lemma InitLogInv<M>(s: Logger<M>)
    requires InitLogger(s)
    ensures LogInv(s)
  {
    InitInv(s.queue);
  }

  lemma PushingKeeps<M>(policy: Policy, s: Logger<M>, i: nat, b: Action<Msg<M>>)
    requires LogInv(s) && CanDo(policy, s, Pushing(i, b))
    ensures LogInv(Next(policy, s, Pushing(i, b)))
  {
    StepKeeps(s.queue, i, b);
    HistoryGrows(s.queue, i, b);
  }

  lemma PoppingKeeps<M>(policy: Policy, s: Logger<M>, b: Action<Msg<M>>)
    requires LogInv(s) && CanDo(policy, s, Popping(b))
    ensures LogInv(Next(policy, s, Popping(b)))
  {
    StepKeeps(s.queue, WORKER, b);
    HistoryGrows(s.queue, WORKER, b);
    assert ThreadInv(s.queue, WORKER);
    assert ThreadInv(Do(s.queue, WORKER, b), WORKER);
  }

  lemma ReceivedMore<M>(msgs: seq<Msg<M>>, handlings: seq<Handling>, msg: Msg<M>, h: Handling, sink: nat)
    requires |msgs| == |handlings|
    ensures Received(msgs + [msg], handlings + [h], sink)
         == Received(msgs, handlings, sink) + if msg.Log? && Gets(h, sink) then [msg.m] else []
  {
    assert (msgs + [msg])[..|msgs|] == msgs && (handlings + [h])[..|msgs|] == handlings;
  }

  lemma ProcessKeeps<M>(policy: Policy, s: Logger<M>, h: Handling)
    requires LogInv(s) && CanDo(policy, s, Process(h))
    ensures LogInv(Next(policy, s, Process(h)))
  {
    StepKeeps(s.queue, WORKER, Return);
    ProcessKeepsFlush(s.worker, s.queue.threads[WORKER].item, h);
    ProcessKeepsSinks(s.worker, s.queue.threads[WORKER].item, h);
    var n := s.queue.dequeuePos;
    assert s.worker.handled + [s.queue.threads[WORKER].item] == s.queue.history.items[..n];
  }

  lemma ProcessKeepsSinks<M>(w: Worker<M>, msg: Msg<M>, h: Handling)
    requires |w.handled| == |w.handlings|
    requires forall j :: 0 <= j < |w.sinks| ==> w.sinks[j].given == Received(w.handled, w.handlings, j)
    ensures var after := Processed(w, msg, h);
            && after.handled == w.handled + [msg] && |after.handlings| == |after.handled|
            && forall j :: 0 <= j < |after.sinks| ==>
                 after.sinks[j].given == Received(after.handled, after.handlings, j)
  {
    forall j | 0 <= j < |w.sinks|
      ensures Processed(w, msg, h).sinks[j].given == Received(w.handled + [msg], w.handlings + [h], j)
    {
      ReceivedMore(w.handled, w.handlings, msg, h, j);
    }
  }

  lemma HandleEmptyKeeps<M>(policy: Policy, s: Logger<M>, expired: bool, throwing: Option<nat>)
    requires LogInv(s) && CanDo(policy, s, HandleEmpty(expired, throwing))
    ensures LogInv(Next(policy, s, HandleEmpty(expired, throwing)))
  {
    StepKeeps(s.queue, WORKER, Return);
    EmptyKeepsFlush(s.worker, expired, throwing);
    assert !s.worker.exited;
  }

  lemma EmptyKeepsFlush<M>(w: Worker<M>, expired: bool, throwing: Option<nat>)
    requires FlushInv(w) && |w.handled| == |w.handlings|
    requires forall j :: 0 <= j < |w.sinks| ==> w.sinks[j].given == Received(w.handled, w.handlings, j)
    ensures FlushInv(FoundQueueEmpty(w, expired, throwing))
  {
    assert w.handled[..|w.handled|] == w.handled && w.handlings[..|w.handled|] == w.handlings;
    forall j | 0 <= j < |w.sinks|
      ensures GivenAt(w.handled, w.handlings, j, LastFlush(w)) <= |w.sinks[j].given|
      ensures GivenAt(w.handled, w.handlings, j, |w.handled|) == |w.sinks[j].given|
    {
    }
  }

  lemma ProcessKeepsFlush<M>(w: Worker<M>, msg: Msg<M>, h: Handling)
    requires FlushInv(w) && |w.handled| == |w.handlings|
    ensures FlushInv(Processed(w, msg, h))
  {
    var after := Processed(w, msg, h);
    var n := LastFlush(w);
    assert after.handled[..n] == w.handled[..n] && after.handlings[..n] == w.handlings[..n];
    assert after.handled[|w.handled|] == msg;
    if AskedToFlush(w) {
      var k :| n <= k < |w.handled| && (w.handled[k].Flush? || w.handled[k].Terminate?);
      assert after.handled[k] == w.handled[k];
    }
  }

  lemma {:induction false} RunLogInv<M>(policy: Policy, trace: seq<Logger<M>>, actions: seq<LogAction<M>>, k: nat)
    requires LogRun(policy, trace, actions) && k < |trace|
    ensures LogInv(trace[k])
  {
    if k == 0 {
      InitLogInv(trace[0]);
    } else {
      RunLogInv(policy, trace, actions, k - 1);
      match actions[k - 1]
      case Pushing(i, b) => PushingKeeps(policy, trace[k - 1], i, b);
      case Popping(b) => PoppingKeeps(policy, trace[k - 1], b);
      case Process(h) => ProcessKeeps(policy, trace[k - 1], h);
      case HandleEmpty(expired, throwing) => HandleEmptyKeeps(policy, trace[k - 1], expired, throwing);
    }
  }

  /// ## What the sinks have been given

  lemma {:induction false} ReceivedPrefix<M>(msgs: seq<Msg<M>>, handlings: seq<Handling>, k: nat, sink: nat)
    requires |msgs| == |handlings| && k <= |msgs|
    ensures Received(msgs[..k], handlings[..k], sink) <= Received(msgs, handlings, sink)
    decreases |msgs|
  {
    if k < |msgs| {
      var n := |msgs| - 1;
      ReceivedPrefix(msgs[..n], handlings[..n], k, sink);
      assert msgs[..n][..k] == msgs[..k] && handlings[..n][..k] == handlings[..k];
    } else {
      assert msgs[..k] == msgs && handlings[..k] == handlings;
    }
  }

  /** The positions of the messages that the sink has been given: those of the log messages that its level
      admits and that no exception, of the formatter or of a sink up to this one, has kept from it. */
  predicate GivenFrom<M(==)>(msgs: seq<Msg<M>>, handlings: seq<Handling>, sink: nat, given: seq<M>, places: seq<nat>)
    requires |msgs| == |handlings|
  {
    && |places| == |given|
    && (forall k, l :: 0 <= k < l < |places| ==> places[k] < places[l])
    && (forall k :: 0 <= k < |places| ==> places[k] < |msgs| && msgs[places[k]] == Log(given[k]))
    && (forall k :: 0 <= k < |msgs| ==>
          (k in places <==>
           && msgs[k].Log? && sink in handlings[k].accepting
           && !handlings[k].delivery.FormatterThrows?
           && (handlings[k].delivery.SinkThrows? ==> handlings[k].delivery.at > sink)))
  }

  lemma {:induction false} ReceivedFrom<M>(msgs: seq<Msg<M>>, handlings: seq<Handling>, sink: nat)
    returns (places: seq<nat>)
    requires |msgs| == |handlings|
    ensures GivenFrom(msgs, handlings, sink, Received(msgs, handlings, sink), places)
    decreases |msgs|
  {
    places := [];
    if msgs != [] {
      var n := |msgs| - 1;
      places := ReceivedFrom(msgs[..n], handlings[..n], sink);
      assert forall k :: 0 <= k < n ==> msgs[..n][k] == msgs[k] && handlings[..n][k] == handlings[k];
      if msgs[n].Log? && Gets(handlings[n], sink) {
        places := places + [n];
      }
    }
  }

  /** At any time, the worker has dealt with the first tickets, and each sink has been given exactly the
      log messages among them that it accepts and that no exception has kept from it: in ticket order,
      each once. */
  lemma SinksInTicketOrder<M>(policy: Policy, trace: seq<Logger<M>>, actions: seq<LogAction<M>>, n: nat, sink: nat)
    returns (places: seq<nat>)
    requires LogRun(policy, trace, actions) && n < |trace| && sink < |trace[n].worker.sinks|
    ensures var w, items := trace[n].worker, trace[n].queue.history.items;
            && |w.handlings| == |w.handled| <= |items|
            && GivenFrom(items[..|w.handled|], w.handlings, sink, w.sinks[sink].given, places)
  {
    RunLogInv(policy, trace, actions, n);
    places := ReceivedFrom(trace[n].worker.handled, trace[n].worker.handlings, sink);
  }

  /// ## When the sinks are flushed

  /** Every sink has been flushed with all that it has been given. */
  predicate AllFlushed<M>(w: Worker<M>) {
    forall j :: 0 <= j < |w.sinks| ==> w.sinks[j].flushed == |w.sinks[j].given|
  }

  lemma ExitedRests<M>(policy: Policy, s: Logger<M>, a: LogAction<M>)
    requires LogInv(s) && CanDo(policy, s, a) && s.worker.exited
    ensures Next(policy, s, a).worker == s.worker
  {
  }

  /** The step with which the worker exits. */
  lemma ExitStep<M>(policy: Policy, s: Logger<M>, a: LogAction<M>)
    requires LogInv(s) && CanDo(policy, s, a) && !s.worker.exited && Next(policy, s, a).worker.exited
    ensures a.HandleEmpty? && s.queue.threads[WORKER].FoundEmpty?
    ensures var w, v := s.worker, Next(policy, s, a).worker;
            v.handled == w.handled && v.flushes == w.flushes + [|w.handled|] && AllFlushed(v)
  {
  }

  /** A worker that has exited did so at an empty queue, where it flushed every sink, and it has handled
      nothing after that flush. */
  lemma {:induction false} ExitFlushes<M>(policy: Policy, trace: seq<Logger<M>>, actions: seq<LogAction<M>>, n: nat)
    returns (k: nat)
    requires LogRun(policy, trace, actions) && n < |trace| && trace[n].worker.exited
    ensures k < n && trace[k].queue.threads != [] && trace[k].queue.threads[WORKER].FoundEmpty?
    ensures actions[k].HandleEmpty? && !trace[k].worker.exited
    ensures trace[n].worker.flushes == trace[k].worker.flushes + [|trace[n].worker.handled|]
    ensures trace[k].worker.handled == trace[n].worker.handled && AllFlushed(trace[n].worker)
    decreases n
  {
    RunLogInv(policy, trace, actions, n - 1);
    if trace[n - 1].worker.exited {
      k := ExitFlushes(policy, trace, actions, n - 1);
      ExitedRests(policy, trace[n - 1], actions[n - 1]);
    } else {
      k := n - 1;
      ExitStep(policy, trace[k], actions[k]);
    }
  }

  /** The worker meets the empty queue, and no exception stops its flush. */
  predicate CanFlush<M>(a: LogAction<M>) {
    a.HandleEmpty? && a.throwing.None?
  }

  lemma {:induction false} StaysAsked<M>(policy: Policy, trace: seq<Logger<M>>, actions: seq<LogAction<M>>,
                                         a: nat, n: nat)
    requires LogRun(policy, trace, actions) && a <= n < |trace| && AskedToFlush(trace[a].worker)
    requires forall k :: a <= k < n ==> !CanFlush(actions[k])
    ensures AskedToFlush(trace[n].worker)
  {
    if a < n {
      StaysAsked(policy, trace, actions, a, n - 1);
      var w, v := trace[n - 1].worker, trace[n].worker;
      var k :| LastFlush(w) <= k < |w.handled| && (w.handled[k].Flush? || w.handled[k].Terminate?);
      assert LastFlush(v) == LastFlush(w) && v.handled[k] == w.handled[k];
    }
  }

  /** Once a flush or terminate message has been handled, the next empty queue at which the flush does not
      throw has every sink flushed with all that it has been given. */
  lemma RequestIsMet<M>(policy: Policy, trace: seq<Logger<M>>, actions: seq<LogAction<M>>, a: nat, n: nat)
    requires LogRun(policy, trace, actions) && a < n < |actions|
    requires actions[a].Process? && trace[a].queue.threads[WORKER].item in [Flush, Terminate]
    requires CanFlush(actions[n]) && forall k :: a < k < n ==> !CanFlush(actions[k])
    ensures trace[n + 1].worker.flushes == trace[n].worker.flushes + [|trace[n].worker.handled|]
    ensures AllFlushed(trace[n + 1].worker)
  {
    RunLogInv(policy, trace, actions, a);
    RunLogInv(policy, trace, actions, n);
    var w := trace[a + 1].worker;
    assert w.handled[|trace[a].worker.handled|] == trace[a].queue.threads[WORKER].item;
    StaysAsked(policy, trace, actions, a + 1, n);
  }

  /** All sinks are flushed exactly at the empty queues where the flush does not throw and either the
      interval has expired or a flush or terminate message has been handled since the last flush. */
  lemma FlushesIff<M>(policy: Policy, trace: seq<Logger<M>>, actions: seq<LogAction<M>>, n: nat)
    requires LogRun(policy, trace, actions) && n < |actions|
    ensures var w, v := trace[n].worker, trace[n + 1].worker;
            v.flushes == w.flushes + (if CanFlush(actions[n]) && (actions[n].intervalExpired || AskedToFlush(w))
                                      then [|w.handled|] else [])
  {
    RunLogInv(policy, trace, actions, n);
  }

  /** No sink is flushed but at an empty queue, on request or because the interval has expired. */
  lemma FlushedOnlyIf<M>(policy: Policy, trace: seq<Logger<M>>, actions: seq<LogAction<M>>, n: nat, sink: nat)
    requires LogRun(policy, trace, actions) && n < |actions| && sink < |trace[n].worker.sinks|
    ensures |trace[n + 1].worker.sinks| == |trace[n].worker.sinks|
    ensures trace[n + 1].worker.sinks[sink].flushed != trace[n].worker.sinks[sink].flushed ==>
              actions[n].HandleEmpty? && (actions[n].intervalExpired || AskedToFlush(trace[n].worker))
  {
    RunLogInv(policy, trace, actions, n);
  }

  /** When the worker has exited, a terminate message has been consumed and every message with a ticket
      before the first of them has been handled; each sink begins with those that it got. */
  lemma ExitDeliversAll<M>(policy: Policy, trace: seq<Logger<M>>, actions: seq<LogAction<M>>, n: nat)
    returns (k: nat)
    requires LogRun(policy, trace, actions) && n < |trace| && trace[n].worker.exited
    ensures var w, items := trace[n].worker, trace[n].queue.history.items;
            && k < |items| && items[k] == Terminate && (forall j :: 0 <= j < k ==> items[j] != Terminate)
            && k < |w.handlings|
            && forall sink :: 0 <= sink < |w.sinks| ==>
                 Received(items[..k], w.handlings[..k], sink) <= w.sinks[sink].given
  {
    RunLogInv(policy, trace, actions, n);
    var w, items := trace[n].worker, trace[n].queue.history.items;
    k := FirstTerminate(w.handled);
    assert w.handled[..k] == items[..k];
    forall sink | 0 <= sink < |w.sinks|
      ensures Received(items[..k], w.handlings[..k], sink) <= w.sinks[sink].given
    {
      ReceivedPrefix(w.handled, w.handlings, k, sink);
    }
  }

  lemma {:induction false} FirstTerminate<M>(msgs: seq<Msg<M>>) returns (k: nat)
    requires Terminate in msgs
    ensures k < |msgs| && msgs[k] == Terminate && forall j :: 0 <= j < k ==> msgs[j] != Terminate
    decreases |msgs|
  {
    if msgs[0] == Terminate {
      k := 0;
    } else {
      var k' := FirstTerminate(msgs[1..]);
      k := k' + 1;
      forall j | 0 <= j < k ensures msgs[j] != Terminate {
        if j > 0 { assert msgs[j] == msgs[1..][j - 1]; }
      }
    }
  }

  lemma NextGrows<M>(policy: Policy, s: Logger<M>, a: LogAction<M>)
    requires LogInv(s) && CanDo(policy, s, a)
    ensures s.queue.history.items <= Next(policy, s, a).queue.history.items
  {
    match a
    case Pushing(i, b) => HistoryGrows(s.queue, i, b);
    case Popping(b) => HistoryGrows(s.queue, WORKER, b);
    case Process(_) => HistoryGrows(s.queue, WORKER, Return);
    case HandleEmpty(_, _) => HistoryGrows(s.queue, WORKER, Return);
  }

  lemma {:induction false} ItemsGrow<M>(policy: Policy, trace: seq<Logger<M>>, actions: seq<LogAction<M>>, a: nat,
                                        n: nat)
    requires LogRun(policy, trace, actions) && a <= n < |trace|
    ensures trace[a].queue.history.items <= trace[n].queue.history.items
  {
    if a < n {
      ItemsGrow(policy, trace, actions, a, n - 1);
      RunLogInv(policy, trace, actions, n - 1);
      NextGrows(policy, trace[n - 1], actions[n - 1]);
    }
  }

  /** Whatever was ticketed at a time when no terminate message was has been handled, in order, once the
      worker has exited, and each sink has what it got of it. */
  lemma ExitDeliversEarlier<M>(policy: Policy, trace: seq<Logger<M>>, actions: seq<LogAction<M>>, a: nat, n: nat)
    requires LogRun(policy, trace, actions) && a <= n < |trace| && trace[n].worker.exited
    requires Terminate !in trace[a].queue.history.items
    ensures var w, early := trace[n].worker, trace[a].queue.history.items;
            && |early| <= |w.handlings| && early <= trace[n].queue.history.items
            && forall sink :: 0 <= sink < |w.sinks| ==>
                 Received(early, w.handlings[..|early|], sink) <= w.sinks[sink].given
  {
    var w, early, items := trace[n].worker, trace[a].queue.history.items, trace[n].queue.history.items;
    ItemsGrow(policy, trace, actions, a, n);
    var k := ExitDeliversAll(policy, trace, actions, n);
    assert early == items[..|early|];
    assert forall j :: 0 <= j < |early| ==> items[j] in early;
    assert items[..k][..|early|] == early && w.handlings[..k][..|early|] == w.handlings[..|early|];
    forall sink | 0 <= sink < |w.sinks|
      ensures Received(early, w.handlings[..|early|], sink) <= w.sinks[sink].given
    {
      ReceivedPrefix(items[..k], w.handlings[..k], |early|, sink);
    }
  }

  /// ## What a call of log promises

  /** The step of the queue that an action is. */
  function QueueStep<M>(a: LogAction<M>): Step<Msg<M>> {
    match a
    case Pushing(i, b) => Step(i, b)
    case Popping(b) => Step(WORKER, b)
    case Process(_) => Step(WORKER, Return)
    case HandleEmpty(_, _) => Step(WORKER, Return)
  }

  function QueueTrace<M>(trace: seq<Logger<M>>): seq<State<Msg<M>>> {
    seq(|trace|, k requires 0 <= k < |trace| => trace[k].queue)
  }

  function QueueSteps<M>(actions: seq<LogAction<M>>): seq<Step<Msg<M>>> {
    seq(|actions|, k requires 0 <= k < |actions| => QueueStep(actions[k]))
  }

  /** A run of the logger is a run of its queue. */
  lemma QueueRuns<M>(policy: Policy, trace: seq<Logger<M>>, actions: seq<LogAction<M>>)
    requires LogRun(policy, trace, actions)
    ensures Run(QueueTrace(trace), QueueSteps(actions))
  {
    var states, steps := QueueTrace(trace), QueueSteps(actions);
    forall k | 0 <= k < |steps|
      ensures Enabled(states[k], steps[k].thread, steps[k].action)
      ensures states[k + 1] == Do(states[k], steps[k].thread, steps[k].action)
    {
      assert CanDo(policy, trace[k], actions[k]) && trace[k + 1] == Next(policy, trace[k], actions[k]);
    }
  }

  /** Thread `i` calls `log` with `m` at `a`, and the call returns at `b`. */
  predicate LogCall<M(==)>(actions: seq<LogAction<M>>, a: nat, b: nat, i: nat, m: M) {
    && a < b < |actions| && i != WORKER
    && actions[a] == Pushing(i, BeginEnqueue(Log(m))) && actions[b] == Pushing(i, Return)
    && forall k :: a < k < b ==> actions[k] != Pushing(i, Return)
  }

  /** Under `BlockRetry`, a call of `log` that has returned has put its message in the queue. */
  lemma CallEnqueues<M>(trace: seq<Logger<M>>, actions: seq<LogAction<M>>, a: nat, b: nat, i: nat, m: M)
    returns (k: nat)
    requires LogRun(BlockRetry, trace, actions) && LogCall(actions, a, b, i, m)
    ensures k < |trace[b].queue.history.items| && trace[b].queue.history.items[k] == Log(m)
  {
    QueueRuns(BlockRetry, trace, actions);
    var states, steps := QueueTrace(trace), QueueSteps(actions);
    assert steps[a] == Step(i, BeginEnqueue(Log(m)));
    forall j | a < j < b
      ensures steps[j] != Step(i, Return)
    {
      assert steps[j] == QueueStep(actions[j]);
    }
    PushedOnce(states, steps, a, b, i, Log(m));
    assert CanDo(BlockRetry, trace[b], actions[b]);
    var from := states[a].enqueuePos;
    k :| OnlyTicket(states[b], i, Log(m), from, k);
  }

  /** Under `BlockRetry`, a message whose call of `log` returned before any terminate message had a ticket
      has been handled when the worker has exited, and every sink that accepts it, and that no exception
      kept from it, has been given it. */
  lemma ReturnedIsDelivered<M>(trace: seq<Logger<M>>, actions: seq<LogAction<M>>, a: nat, b: nat, i: nat, m: M, n: nat)
    returns (k: nat)
    requires LogRun(BlockRetry, trace, actions) && LogCall(actions, a, b, i, m)
    requires Terminate !in trace[b].queue.history.items
    requires b <= n < |trace| && trace[n].worker.exited
    ensures var w := trace[n].worker;
            && k < |w.handled| == |w.handlings| && w.handled[k] == Log(m)
            && forall sink :: 0 <= sink < |w.sinks| && Gets(w.handlings[k], sink) ==> m in w.sinks[sink].given
  {
    k := CallEnqueues(trace, actions, a, b, i, m);
    ExitDeliversEarlier(BlockRetry, trace, actions, b, n);
    RunLogInv(BlockRetry, trace, actions, n);
    var w, early := trace[n].worker, trace[b].queue.history.items;
    assert w.handled[k] == trace[n].queue.history.items[k] == early[k];
    forall sink | 0 <= sink < |w.sinks| && Gets(w.handlings[k], sink)
      ensures m in w.sinks[sink].given
    {
      GotIsReceived(w.handled, w.handlings, k, sink);
    }
  }

  lemma {:induction false} GotIsReceived<M>(msgs: seq<Msg<M>>, handlings: seq<Handling>, k: nat, sink: nat)
    requires |msgs| == |handlings| && k < |msgs| && msgs[k].Log? && Gets(handlings[k], sink)
    ensures msgs[k].m in Received(msgs, handlings, sink)
    decreases |msgs|
  {
    var n := |msgs| - 1;
    if k < n {
      GotIsReceived(msgs[..n], handlings[..n], k, sink);
    }
  }

  /** A sink gets all the log messages among those handled if and only if its level admits each of them
      and no exception keeps one from it. */
  lemma {:induction false} NothingLost<M>(msgs: seq<Msg<M>>, handlings: seq<Handling>, sink: nat)
    requires |msgs| == |handlings|
    ensures Received(msgs, handlings, sink) == Payloads(msgs)
       <==> forall k :: 0 <= k < |msgs| && msgs[k].Log? ==> Gets(handlings[k], sink)
    decreases |msgs|
  {
    if msgs != [] {
      var n := |msgs| - 1;
      NothingLost(msgs[..n], handlings[..n], sink);
      ReceivedAtMost(msgs[..n], handlings[..n], sink);
      assert (forall k :: 0 <= k < |msgs| && msgs[k].Log? ==> Gets(handlings[k], sink))
        <==> (forall k :: 0 <= k < n && msgs[..n][k].Log? ==> Gets(handlings[..n][k], sink))
             && (msgs[n].Log? ==> Gets(handlings[n], sink));
      var init, rest := Received(msgs[..n], handlings[..n], sink), Payloads(msgs[..n]);
      SameTail(init, rest, if msgs[n].Log? then [msgs[n].m] else []);
    }
  }

  lemma SameTail<M>(a: seq<M>, b: seq<M>, c: seq<M>)
    ensures a + c == b + c <==> a == b
  {
    if a + c == b + c {
      assert a == (a + c)[..|a|] && b == (b + c)[..|b|];
    }
  }

  /** The payloads of the log messages, in order. */
  function Payloads<M>(msgs: seq<Msg<M>>): seq<M> {
    if msgs == [] then []
    else
      var last := msgs[|msgs| - 1];
      Payloads(msgs[..|msgs| - 1]) + if last.Log? then [last.m] else []
  }

  lemma {:induction false} ReceivedAtMost<M>(msgs: seq<Msg<M>>, handlings: seq<Handling>, sink: nat)
    requires |msgs| == |handlings|
    ensures |Received(msgs, handlings, sink)| <= |Payloads(msgs)|
    decreases |msgs|
  {
    if msgs != [] {
      ReceivedAtMost(msgs[..|msgs| - 1], handlings[..|msgs| - 1], sink);
    }
  }
}
