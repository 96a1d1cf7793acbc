/** The master's scheduling loop: registers coflows as they fall due, sends every flow of each, and
  counts the coflows whose flows have all been reported ended. */
module Schedulers {

  import opened Coflows

  datatype Message = Message(coflowID: int, flowID: int, mapperID: int, reducerID: int, sizeMB: real, speedMbs: real)

  datatype Report = Report(coflowID: int, flowID: int, endtime: int)

  /** What one iteration meets: the time since the start, and the reports in the order in which the
      machines are read. */
  datatype Tick = Tick(time: real, reports: seq<Report>)

  /** `finished` is coflowFinishedNum; `sent` and `handled` record what was sent and which reports were
      taken from the machines. */
  datatype State = State(coflows: seq<CoflowView>, registerIndex: nat, finished: nat,
                         sent: seq<Message>, handled: seq<Report>)

  const SPEED := 10.0

  /// ## The flows of a coflow in the order of the ordered map

  predicate IsLeast(k: int, s: set<int>) {
    k in s && forall j :: j in s ==> k <= j
  }

  lemma {:induction false} LeastExists(s: set<int>)
    requires s != {}
    ensures exists k :: IsLeast(k, s)
  {
    assert (forall x: int :: x !in s) ==> s == {};
    var x: int :| x in s;
    var rest := s - {x};
    if rest == {} {
      assert s == {x};
      assert IsLeast(x, s);
    } else {
      LeastExists(rest);
      var k :| IsLeast(k, rest);
      assert s == rest + {x};
      assert IsLeast(if x < k then x else k, s);
    }
  }

  ghost function Least(s: set<int>): (k: int)
    requires s != {}
    ensures IsLeast(k, s)
  {
    LeastExists(s);
    var k :| IsLeast(k, s);
    k
  }

  ghost function Ascending(s: set<int>): seq<int>
    decreases |s|
  {
    if s == {} then [] else [Least(s)] + Ascending(s - {Least(s)})
  }

  function MessageFor(c: CoflowView, id: int): Message
    requires id in c.flows
  {
    var f := c.flows[id];
    Message(c.coflowID, f.flowID, f.mapperID, f.reducerID, f.flowSizeMB, SPEED)
  }

  /** The messages for the flows `ids`. */
  function MessagesFor(c: CoflowView, ids: seq<int>): seq<Message>
    requires forall k :: 0 <= k < |ids| ==> ids[k] in c.flows
  {
    if ids == [] then [] else [MessageFor(c, ids[0])] + MessagesFor(c, ids[1..])
  }

  lemma {:induction false} AscendingIn(s: set<int>)
    ensures forall k :: 0 <= k < |Ascending(s)| ==> Ascending(s)[k] in s
    decreases |s|
  {
    if s != {} {
      AscendingIn(s - {Least(s)});
    }
  }

  ghost function Messages(c: CoflowView): seq<Message> {
    AscendingIn(c.flows.Keys);
    MessagesFor(c, Ascending(c.flows.Keys))
  }

  /** Setting the rate of every flow. */
  function Rated(c: CoflowView, ids: set<int>): CoflowView {
    c.(flows := map id | id in c.flows :: if id in ids then c.flows[id].(currentMbs := SPEED) else c.flows[id])
  }

  /// ## One iteration as a function of the state

  function With(s: State, i: nat, c: CoflowView): State
    requires i < |s.coflows|
  {
    s.(coflows := s.coflows[i := c])
  }

  predicate Sane(s: State) {
    s.registerIndex <= |s.coflows|
  }

  function Registered(s: State, t: real): (r: State)
    requires Sane(s)
    ensures Sane(r) && |r.coflows| == |s.coflows| && s.registerIndex <= r.registerIndex
    decreases |s.coflows| - s.registerIndex
  {
    if s.registerIndex < |s.coflows| && s.coflows[s.registerIndex].startTime <= t then
      Registered(With(s, s.registerIndex, s.coflows[s.registerIndex].(state := REGISTED))
                 .(registerIndex := s.registerIndex + 1), t)
    else s
  }

  function StartOne(s: State, i: nat): State
    requires i < |s.coflows|
  {
    if s.coflows[i].state == REGISTED then With(s, i, s.coflows[i].(state := RUNNING)) else s
  }

  function StartedFrom(s: State, i: nat): (r: State)
    requires i <= s.registerIndex <= |s.coflows|
    ensures r.registerIndex == s.registerIndex && |r.coflows| == |s.coflows|
    decreases s.registerIndex - i
  {
    if i == s.registerIndex then s else StartedFrom(StartOne(s, i), i + 1)
  }

  ghost function SendOne(s: State, i: nat): State
    requires i < |s.coflows|
  {
    var c := s.coflows[i];
    if c.state == RUNNING then
      With(s, i, Rated(c, c.flows.Keys).(state := RUNNINGED)).(sent := s.sent + Messages(c))
    else s
  }

  ghost function SentFrom(s: State, i: nat): (r: State)
    requires i <= s.registerIndex <= |s.coflows|
    ensures r.registerIndex == s.registerIndex && |r.coflows| == |s.coflows|
    decreases s.registerIndex - i
  {
    if i == s.registerIndex then s else SentFrom(SendOne(s, i), i + 1)
  }

  /** The first coflow with this id, or the number of coflows. */
  function Target(coflows: seq<CoflowView>, coflowID: int): (k: nat)
    ensures k <= |coflows| && (k < |coflows| ==> coflows[k].coflowID == coflowID)
    ensures forall j :: 0 <= j < k ==> coflows[j].coflowID != coflowID
  {
    if coflows == [] then 0
    else if coflows[0].coflowID == coflowID then 0
    else 1 + Target(coflows[1..], coflowID)
  }

  function Handle(s: State, r: Report): State {
    var i := Target(s.coflows, r.coflowID);
    var logged := s.(handled := s.handled + [r]);
    if i == |s.coflows| then logged
    else With(logged, i, FlowEnded(s.coflows[i], r.flowID, r.endtime))
         .(finished := s.finished + (if Completes(s.coflows[i], r.flowID) then 1 else 0))
  }

  /** The report ends the run: it completes a coflow and all coflows are counted. */
  predicate Ends(s: State, r: Report) {
    var i := Target(s.coflows, r.coflowID);
    i < |s.coflows| && Completes(s.coflows[i], r.flowID) && s.finished + 1 >= |s.coflows|
  }

  datatype Outcome = Outcome(state: State, done: bool)

  function HandleAll(s: State, reports: seq<Report>): (o: Outcome)
    ensures o.state.registerIndex == s.registerIndex && |o.state.coflows| == |s.coflows|
    decreases |reports|
  {
    if reports == [] then Outcome(s, false)
    else if Ends(s, reports[0]) then Outcome(Handle(s, reports[0]), true)
    else HandleAll(Handle(s, reports[0]), reports[1..])
  }

  ghost function Iterated(s: State, tick: Tick): (o: Outcome)
    requires Sane(s)
    ensures Sane(o.state)
  {
    var sent := SentFrom(StartedFrom(Registered(s, tick.time), 0), 0);
    HandleAll(sent, tick.reports)
  }

  /** The iterations of one call of `run`, until it returns or `run_stop` is set. */
  ghost function Scheduled(s: State, ticks: seq<Tick>): Outcome
    requires Sane(s)
    decreases |ticks|
  {
    if ticks == [] then Outcome(s, false)
    else
      var one := Iterated(s, ticks[0]);
      if one.done then one else Scheduled(one.state, ticks[1..])
  }

  predicate Initial(s: State) {
    && s.registerIndex == 0 && s.finished == 0 && s.sent == [] && s.handled == []
    && forall i :: 0 <= i < |s.coflows| ==>
         && s.coflows[i].state == UNREGISTER && s.coflows[i].endflowNum == 0
         && forall id :: id in s.coflows[i].flows ==>
              !s.coflows[i].flows[id].ended && s.coflows[i].flows[id].flowID == id
  }

  predicate Distinct(s: State) {
    forall i, j :: 0 <= i < j < |s.coflows| ==> s.coflows[i].coflowID != s.coflows[j].coflowID
  }

  /// ## What an iteration leaves alone

  /** Same coflow and same flows to send; only progress may differ. */
  predicate SameWork(c: CoflowView, d: CoflowView) {
    && c.coflowID == d.coflowID && c.startTime == d.startTime && c.flows.Keys == d.flows.Keys
    && forall id :: id in c.flows ==> MessageFor(c, id) == MessageFor(d, id)
  }

  predicate SameWorks(s: State, r: State) {
    |s.coflows| == |r.coflows| && forall i :: 0 <= i < |s.coflows| ==> SameWork(s.coflows[i], r.coflows[i])
  }

  lemma {:induction false} SameMessagesFor(c: CoflowView, d: CoflowView, ids: seq<int>)
    requires SameWork(c, d) && forall k :: 0 <= k < |ids| ==> ids[k] in c.flows
    ensures MessagesFor(c, ids) == MessagesFor(d, ids)
  {
    if ids != [] {
      SameMessagesFor(c, d, ids[1..]);
    }
  }

  lemma SameMessages(c: CoflowView, d: CoflowView)
    requires SameWork(c, d)
    ensures Messages(c) == Messages(d)
  {
    AscendingIn(c.flows.Keys);
    SameMessagesFor(c, d, Ascending(c.flows.Keys));
  }

  /** The messages for all flows of the first `n` coflows, coflow by coflow. */
  ghost function AllMessages(coflows: seq<CoflowView>, n: nat): seq<Message>
    requires n <= |coflows|
  {
    if n == 0 then [] else AllMessages(coflows, n - 1) + Messages(coflows[n - 1])
  }

  lemma {:induction false} SameAllMessages(s: State, r: State, n: nat)
    requires SameWorks(s, r) && n <= |s.coflows|
    ensures AllMessages(s.coflows, n) == AllMessages(r.coflows, n)
  {
    if n > 0 {
      SameAllMessages(s, r, n - 1);
      SameMessages(s.coflows[n - 1], r.coflows[n - 1]);
    }
  }

  /// ## The states of the coflows

  /** The first `a` coflows have been sent, those up to `b` are in state `mid`, the rest are new. */
  predicate Phased(s: State, a: nat, b: nat, mid: CoflowState) {
    && a <= b <= |s.coflows|
    && forall i :: 0 <= i < |s.coflows| ==>
         s.coflows[i].state == if i < a then RUNNINGED else if i < b then mid else UNREGISTER
  }

  /** The state at the top of every iteration: what is registered has been sent, each flow in its
      turn, and nothing else has. */
  ghost predicate Settled(s: State) {
    Phased(s, s.registerIndex, s.registerIndex, UNREGISTER) && s.sent == AllMessages(s.coflows, s.registerIndex)
  }

  lemma {:induction false} RegisteredPhase(s: State, t: real, a: nat)
    requires Phased(s, a, s.registerIndex, REGISTED)
    ensures var r := Registered(s, t);
            && Phased(r, a, r.registerIndex, REGISTED) && SameWorks(s, r)
            && r.(coflows := s.coflows, registerIndex := s.registerIndex) == s
    decreases |s.coflows| - s.registerIndex
  {
    var i := s.registerIndex;
    if i < |s.coflows| && s.coflows[i].startTime <= t {
      RegisteredPhase(With(s, i, s.coflows[i].(state := REGISTED)).(registerIndex := i + 1), t, a);
    }
  }

  /** Registration stops at the first coflow that is not due. */
  lemma {:induction false} RegistersDue(s: State, t: real)
    requires Sane(s)
    ensures var r := Registered(s, t);
            && (forall i :: s.registerIndex <= i < r.registerIndex ==> s.coflows[i].startTime <= t)
            && (r.registerIndex < |s.coflows| ==> s.coflows[r.registerIndex].startTime > t)
    decreases |s.coflows| - s.registerIndex
  {
    var i := s.registerIndex;
    if i < |s.coflows| && s.coflows[i].startTime <= t {
      var next := With(s, i, s.coflows[i].(state := REGISTED)).(registerIndex := i + 1);
      RegistersDue(next, t);
      assert forall k :: 0 <= k < |s.coflows| ==> next.coflows[k].startTime == s.coflows[k].startTime;
    }
  }

  /** The loop that starts coflows has reached `i`. */
  predicate Starting(s: State, a: nat, i: nat) {
    && a <= s.registerIndex <= |s.coflows| && i <= s.registerIndex
    && forall k :: 0 <= k < |s.coflows| ==>
         s.coflows[k].state == if k < a then RUNNINGED
                               else if k < s.registerIndex then (if k < i then RUNNING else REGISTED)
                               else UNREGISTER
  }

  lemma {:induction false} StartedPhase(s: State, a: nat, i: nat)
    requires Starting(s, a, i)
    ensures var r := StartedFrom(s, i);
            && Phased(r, a, r.registerIndex, RUNNING) && SameWorks(s, r) && r.(coflows := s.coflows) == s
    decreases s.registerIndex - i
  {
    if i < s.registerIndex {
      StartedPhase(StartOne(s, i), a, i + 1);
    }
  }

  /** The loop that sends flows has reached `i`. */
  ghost predicate SendingAt(s: State, a: nat, i: nat) {
    && a <= s.registerIndex <= |s.coflows| && i <= s.registerIndex
    && (forall k :: 0 <= k < |s.coflows| ==>
          s.coflows[k].state == if k < a || k < i then RUNNINGED
                                else if k < s.registerIndex then RUNNING else UNREGISTER)
    && s.sent == AllMessages(s.coflows, if a < i then i else a)
  }

  lemma SendOneSame(s: State, i: nat)
    requires i < |s.coflows|
    ensures SameWorks(s, SendOne(s, i))
  {
  }

  lemma SendOnePhase(s: State, a: nat, i: nat)
    requires SendingAt(s, a, i) && i < s.registerIndex
    ensures SendingAt(SendOne(s, i), a, i + 1)
  {
    var r := SendOne(s, i);
    SendOneSame(s, i);
    SameAllMessages(s, r, if a < i then i else a);
    SameMessages(s.coflows[i], r.coflows[i]);
  }

  lemma {:induction false} SentPhase(s: State, a: nat, i: nat)
    requires SendingAt(s, a, i)
    ensures var r := SentFrom(s, i);
            Settled(r) && SameWorks(s, r) && r.(coflows := s.coflows, sent := s.sent) == s
    decreases s.registerIndex - i
  {
    if i < s.registerIndex {
      SendOneSame(s, i);
      SendOnePhase(s, a, i);
      SentPhase(SendOne(s, i), a, i + 1);
    }
  }
}
