/** What has become of each flow: its data stay, its rate is set when it is sent, and its end is that of
  its latest report. */
module SchedulerFlows {

  import opened Coflows
  import opened Schedulers
  import opened SchedulerRuns

  /** The latest report of the flow says `endtime`. */
  predicate LatestSays(handled: seq<Report>, coflowID: int, flowID: int, endtime: int) {
    exists k :: 0 <= k < |handled| && handled[k] == Report(coflowID, flowID, endtime)
                && !Reported(handled[k + 1..], coflowID, flowID)
  }

  /** Flow `id` of coflow `i` in the state, compared with the coflows at the start. */
  predicate FlowIs(cs: seq<CoflowView>, s: State, i: nat, id: int)
    requires i < |cs| == |s.coflows| && id in cs[i].flows && id in s.coflows[i].flows
  {
    var was, f, coflowID := cs[i].flows[id], s.coflows[i].flows[id], cs[i].coflowID;
    && f.flowID == was.flowID && f.mapperID == was.mapperID && f.reducerID == was.reducerID
    && f.flowSizeMB == was.flowSizeMB
    && f.currentMbs == (if s.coflows[i].state == RUNNINGED then 10.0 else was.currentMbs)
    && f.ended == Reported(s.handled, coflowID, id)
    && (if f.ended then LatestSays(s.handled, coflowID, id, f.endTime) else f.endTime == was.endTime)
  }

  predicate FlowsAre(cs: seq<CoflowView>, s: State) {
    && SameFlows(cs, s.coflows) && Distinct(s)
    && forall i, id :: 0 <= i < |cs| && id in cs[i].flows ==> id in s.coflows[i].flows && FlowIs(cs, s, i, id)
  }

  lemma InitialFlows(s: State)
    requires Initial(s) && Distinct(s)
    ensures FlowsAre(s.coflows, s)
  {
  }

  /// ## Registering, starting and sending

  /** Replacing a coflow by one whose flows are as its state asks. */
  lemma ReplaceKeeps(cs: seq<CoflowView>, s: State, i: nat, c: CoflowView, r: State)
    requires FlowsAre(cs, s) && i < |cs| && r.coflows == s.coflows[i := c] && r.handled == s.handled
    requires c.coflowID == s.coflows[i].coflowID && c.flows.Keys == s.coflows[i].flows.Keys
    requires forall id :: id in cs[i].flows && id in c.flows ==>
               c.flows[id] == s.coflows[i].flows[id].(currentMbs := c.flows[id].currentMbs)
               && c.flows[id].currentMbs == if c.state == RUNNINGED then 10.0 else cs[i].flows[id].currentMbs
    ensures FlowsAre(cs, r)
  {
    forall j, id | 0 <= j < |cs| && id in cs[j].flows
      ensures id in r.coflows[j].flows && FlowIs(cs, r, j, id)
    {
      assert FlowIs(cs, s, j, id);
      assert id in s.coflows[j].flows.Keys;
    }
  }

  lemma {:induction false} RegisteredFlows(cs: seq<CoflowView>, s: State, t: real, a: nat)
    requires FlowsAre(cs, s) && Phased(s, a, s.registerIndex, REGISTED)
    ensures FlowsAre(cs, Registered(s, t))
    decreases |s.coflows| - s.registerIndex
  {
    var i := s.registerIndex;
    if i < |s.coflows| && s.coflows[i].startTime <= t {
      var next := With(s, i, s.coflows[i].(state := REGISTED)).(registerIndex := i + 1);
      FlowsKept(cs, s, i);
      ReplaceKeeps(cs, s, i, s.coflows[i].(state := REGISTED), next);
      RegisteredFlows(cs, next, t, a);
    }
  }

  lemma FlowsKept(cs: seq<CoflowView>, s: State, i: nat)
    requires FlowsAre(cs, s) && i < |cs| && s.coflows[i].state != RUNNINGED
    ensures forall id :: id in cs[i].flows && id in s.coflows[i].flows ==>
              s.coflows[i].flows[id].currentMbs == cs[i].flows[id].currentMbs
  {
    forall id | id in cs[i].flows && id in s.coflows[i].flows
      ensures s.coflows[i].flows[id].currentMbs == cs[i].flows[id].currentMbs
    {
      assert FlowIs(cs, s, i, id);
    }
  }

  lemma {:induction false} StartedFlows(cs: seq<CoflowView>, s: State, i: nat)
    requires FlowsAre(cs, s) && i <= s.registerIndex <= |s.coflows|
    ensures FlowsAre(cs, StartedFrom(s, i))
    decreases s.registerIndex - i
  {
    if i < s.registerIndex {
      if s.coflows[i].state == REGISTED {
        FlowsKept(cs, s, i);
        ReplaceKeeps(cs, s, i, s.coflows[i].(state := RUNNING), StartOne(s, i));
      }
      StartedFlows(cs, StartOne(s, i), i + 1);
    }
  }

  lemma {:induction false} SentFlows(cs: seq<CoflowView>, s: State, i: nat)
    requires FlowsAre(cs, s) && i <= s.registerIndex <= |s.coflows|
    ensures FlowsAre(cs, SentFrom(s, i))
    decreases s.registerIndex - i
  {
    if i < s.registerIndex {
      if s.coflows[i].state == RUNNING {
        var c := s.coflows[i];
        ReplaceKeeps(cs, s, i, Rated(c, c.flows.Keys).(state := RUNNINGED), SendOne(s, i));
      }
      SentFlows(cs, SendOne(s, i), i + 1);
    }
  }

  /// ## Reports

  lemma LatestMore(handled: seq<Report>, r: Report, coflowID: int, flowID: int, endtime: int)
    ensures r.coflowID == coflowID && r.flowID == flowID ==>
              LatestSays(handled + [r], coflowID, flowID, r.endtime)
    ensures !(r.coflowID == coflowID && r.flowID == flowID) && LatestSays(handled, coflowID, flowID, endtime) ==>
              LatestSays(handled + [r], coflowID, flowID, endtime)
  {
    var more := handled + [r];
    if r.coflowID == coflowID && r.flowID == flowID {
      assert more[|handled|] == r && more[|handled| + 1..] == [];
    } else if LatestSays(handled, coflowID, flowID, endtime) {
      var k :| 0 <= k < |handled| && handled[k] == Report(coflowID, flowID, endtime)
               && !Reported(handled[k + 1..], coflowID, flowID);
      assert more[k] == handled[k] && more[k + 1..] == handled[k + 1..] + [r];
      ReportedMore(handled[k + 1..], r, coflowID, flowID);
    }
  }

  lemma HandleFlow(cs: seq<CoflowView>, s: State, r: Report, i: nat, id: int)
    requires FlowsAre(cs, s) && i < |cs| && id in cs[i].flows && id in s.coflows[i].flows
    ensures id in Handle(s, r).coflows[i].flows && FlowIs(cs, Handle(s, r), i, id)
  {
    assert FlowIs(cs, s, i, id);
    ReportedMore(s.handled, r, cs[i].coflowID, id);
    LatestMore(s.handled, r, cs[i].coflowID, id, s.coflows[i].flows[id].endTime);
    TargetDistinct(s, i);
  }

  lemma HandleFlows(cs: seq<CoflowView>, s: State, r: Report)
    requires FlowsAre(cs, s)
    ensures FlowsAre(cs, Handle(s, r))
  {
    var t := Handle(s, r);
    forall i | 0 <= i < |cs|
      ensures t.coflows[i].coflowID == s.coflows[i].coflowID && t.coflows[i].flows.Keys == s.coflows[i].flows.Keys
    {
    }
    forall i, id | 0 <= i < |cs| && id in cs[i].flows
      ensures id in t.coflows[i].flows && FlowIs(cs, t, i, id)
    {
      assert id in s.coflows[i].flows.Keys;
      HandleFlow(cs, s, r, i, id);
    }
  }

  lemma {:induction false} HandleAllFlows(cs: seq<CoflowView>, s: State, reports: seq<Report>)
    requires FlowsAre(cs, s)
    ensures FlowsAre(cs, HandleAll(s, reports).state)
    decreases |reports|
  {
    if reports != [] {
      HandleFlows(cs, s, reports[0]);
      if !Ends(s, reports[0]) {
        HandleAllFlows(cs, Handle(s, reports[0]), reports[1..]);
      }
    }
  }

  /// ## Runs

  lemma {:induction false} ScheduledFlows(cs: seq<CoflowView>, s: State, ticks: seq<Tick>)
    requires FlowsAre(cs, s) && Settled(s)
    ensures FlowsAre(cs, Scheduled(s, ticks).state)
    decreases |ticks|
  {
    if ticks != [] {
      var registered := Registered(s, ticks[0].time);
      RegisteredFlows(cs, s, ticks[0].time, s.registerIndex);
      StartedFlows(cs, registered, 0);
      SentFlows(cs, StartedFrom(registered, 0), 0);
      HandleAllFlows(cs, BeforeReports(s, ticks[0]), ticks[0].reports);
      IteratedSettles(s, ticks[0]);
      if !Iterated(s, ticks[0]).done {
        ScheduledFlows(cs, Iterated(s, ticks[0]).state, ticks[1..]);
      }
    }
  }

  /** At any time, with coflows of distinct ids: every flow keeps its ids, machines and size. Its rate is 10
      exactly if its coflow is registered, and otherwise as at the start. It has ended exactly if it was
      reported, at the time that its latest report says. */
  lemma FlowsInRun(s: State, ticks: seq<Tick>, i: nat, id: int)
    requires Initial(s) && Distinct(s) && i < |s.coflows| && id in s.coflows[i].flows
    ensures var r := Scheduled(s, ticks).state;
            && |r.coflows| == |s.coflows| && id in r.coflows[i].flows
            && var was, f := s.coflows[i].flows[id], r.coflows[i].flows[id];
               && f.flowID == id && f.mapperID == was.mapperID && f.reducerID == was.reducerID
               && f.flowSizeMB == was.flowSizeMB
               && f.currentMbs == (if i < r.registerIndex then 10.0 else was.currentMbs)
               && f.ended == Reported(r.handled, s.coflows[i].coflowID, id)
               && (f.ended ==> LatestSays(r.handled, s.coflows[i].coflowID, id, f.endTime))
               && (!f.ended ==> f.endTime == was.endTime)
  {
    InitialFlows(s);
    ScheduledFlows(s.coflows, s, ticks);
    ScheduledSettles(s, ticks);
    assert FlowIs(s.coflows, Scheduled(s, ticks).state, i, id);
  }
}
