/** The scheduling loop itself, over the coflow objects that it updates in place. */
module SchedulerLoop {

  import opened Coflows
  import opened Schedulers

  ghost function ViewsOf(coflows: seq<Coflow>): (views: seq<CoflowView>)
    ensures |views| == |coflows| && forall i :: 0 <= i < |coflows| ==> views[i] == coflows[i].View()
    reads coflows
  {
    seq(|coflows|, i requires 0 <= i < |coflows| reads coflows => coflows[i].View())
  }

  /** Views that differ at most at `i`. */
  lemma Updated(before: seq<CoflowView>, after: seq<CoflowView>, i: nat)
    requires i < |before| == |after| && forall k :: 0 <= k < |before| && k != i ==> after[k] == before[k]
    ensures after == before[i := after[i]]
  {
  }

  class Scheduler {
    const sCoflows: seq<Coflow>
    var registerIndex: nat
    var coflowFinishedNum: nat
    var sent: seq<Message>
    ghost var handled: seq<Report>

    /** The vector holds each coflow object once. */
    ghost predicate Valid()
      reads this
    {
      && registerIndex <= |sCoflows|
      && forall i, j :: 0 <= i < j < |sCoflows| ==> sCoflows[i] != sCoflows[j]
    }

    ghost function View(): State
      reads this, sCoflows
    {
      State(ViewsOf(sCoflows), registerIndex, coflowFinishedNum, sent, handled)
    }

    constructor (coflows: seq<Coflow>)
      requires forall i, j :: 0 <= i < j < |coflows| ==> coflows[i] != coflows[j]
      ensures Valid() && sCoflows == coflows && View() == State(ViewsOf(coflows), 0, 0, [], [])
    {
      sCoflows, registerIndex, coflowFinishedNum, sent, handled := coflows, 0, 0, [], [];
    }

    method RegisterOne()
      requires Valid() && registerIndex < |sCoflows|
      modifies `registerIndex, sCoflows
      ensures Valid()
      ensures View() == With(old(View()), old(registerIndex), old(sCoflows[registerIndex].View()).(state := REGISTED))
                        .(registerIndex := old(registerIndex) + 1)
    {
      ghost var before := ViewsOf(sCoflows);
      var i := registerIndex;
      sCoflows[i].SetCoflowState(REGISTED);
      Updated(before, ViewsOf(sCoflows), i);
      registerIndex := i + 1;
    }

    method RegisterCoflow(t: real)
      requires Valid()
      modifies `registerIndex, sCoflows
      ensures Valid() && View() == Registered(old(View()), t)
    {
      while true
        invariant Valid() && Registered(View(), t) == Registered(old(View()), t)
        decreases |sCoflows| - registerIndex
      {
        if registerIndex >= |sCoflows| {
          return;
        }
        if sCoflows[registerIndex].startTime <= t {
          RegisterOne();
        } else {
          break;
        }
      }
    }

    method Start(i: nat)
      requires Valid() && i < |sCoflows|
      modifies sCoflows
      ensures View() == StartOne(old(View()), i)
    {
      ghost var before := ViewsOf(sCoflows);
      var co := sCoflows[i];
      if co.coflowState == REGISTED {
        co.SetCoflowState(RUNNING);
        Updated(before, ViewsOf(sCoflows), i);
      }
    }

    method StartRegistered()
      requires Valid()
      modifies sCoflows
      ensures View() == StartedFrom(old(View()), 0)
    {
      var i := 0;
      while i < registerIndex
        invariant 0 <= i <= registerIndex && StartedFrom(View(), i) == StartedFrom(old(View()), 0)
      {
        Start(i);
        i := i + 1;
      }
    }

    /** Sets the rate of one flow and sends it. */
    method SendFlow(co: Coflow, id: int, ghost c: CoflowView, ghost done: set<int>)
      requires id in c.flows && id !in done && co.View() == Rated(c, done)
      modifies co`flowCollection, `sent
      ensures co.View() == Rated(c, done + {id}) && sent == old(sent) + [MessageFor(c, id)]
    {
      var f := co.flowCollection[id];
      RatedOne(c, done, id);
      co.flowCollection := co.flowCollection[id := f.(currentMbs := SPEED)];
      sent := sent + [Message(co.coflowID, f.flowID, f.mapperID, f.reducerID, f.flowSizeMB, SPEED)];
    }

    /** Walks the flows in the order of their ids, setting the rate of each and sending it. */
    method SendFlows(co: Coflow)
      modifies co`flowCollection, `sent
      ensures co.View() == Rated(old(co.View()), old(co.flowCollection.Keys))
      ensures sent == old(sent) + Messages(old(co.View()))
    {
      ghost var c := co.View();
      var todo, done := co.flowCollection.Keys, {};
      AscendingIn(todo);
      assert co.View() == Rated(c, {});
      while todo != {}
        invariant todo + done == c.flows.Keys && todo !! done
        invariant forall k :: 0 <= k < |Ascending(todo)| ==> Ascending(todo)[k] in c.flows
        invariant co.View() == Rated(c, done)
        invariant sent + MessagesFor(c, Ascending(todo)) == old(sent) + Messages(c)
        decreases |todo|
      {
        LeastExists(todo);
        var id :| IsLeast(id, todo);
        assert id == Least(todo);
        AscendingIn(todo - {id});
        NextMessage(c, todo, id);
        ghost var was := sent;
        SendFlow(co, id, c, done);
        Moved(was, MessageFor(c, id), MessagesFor(c, Ascending(todo - {id})));
        todo, done := todo - {id}, done + {id};
      }
      assert done == c.flows.Keys;
    }

    method Send(i: nat)
      requires Valid() && i < |sCoflows|
      modifies sCoflows, `sent
      ensures View() == SendOne(old(View()), i)
    {
      ghost var before := ViewsOf(sCoflows);
      var co := sCoflows[i];
      if co.coflowState == RUNNING {
        SendFlows(co);
        co.SetCoflowState(RUNNINGED);
        Updated(before, ViewsOf(sCoflows), i);
      }
    }

    method SendRunning()
      requires Valid()
      modifies sCoflows, `sent
      ensures View() == SentFrom(old(View()), 0)
    {
      var i := 0;
      while i < registerIndex
        invariant 0 <= i <= registerIndex && Valid() && SentFrom(View(), i) == SentFrom(old(View()), 0)
      {
        Send(i);
        i := i + 1;
      }
    }

    /** The search for the coflow that a report names. */
    method Find(coflowID: int) returns (k: nat)
      ensures k == Target(ViewsOf(sCoflows), coflowID)
    {
      ghost var views := ViewsOf(sCoflows);
      k := 0;
      while k < |sCoflows|
        invariant k <= |sCoflows| && Target(views, coflowID) == k + Target(views[k..], coflowID)
      {
        assert views[k] == sCoflows[k].View();
        if sCoflows[k].coflowID == coflowID {
          return;
        }
        assert views[k..][1..] == views[k + 1..];
        k := k + 1;
      }
    }

    method HandleReport(r: Report) returns (done: bool)
      requires Valid()
      modifies sCoflows, `coflowFinishedNum, `handled
      ensures View() == Handle(old(View()), r) && done == Ends(old(View()), r)
    {
      var i := Find(r.coflowID);
      handled := handled + [r];
      done := false;
      if i < |sCoflows| {
        ghost var before := ViewsOf(sCoflows);
        var last := sCoflows[i].FlowEnd(r.flowID, r.endtime);
        Updated(before, ViewsOf(sCoflows), i);
        if last {
          coflowFinishedNum := coflowFinishedNum + 1;
          done := coflowFinishedNum >= |sCoflows|;
        }
      }
    }

    /** One iteration of the loop of `run`. */
    method Iterate(tick: Tick) returns (done: bool)
      requires Valid()
      modifies this, sCoflows
      ensures Valid() && Outcome(View(), done) == Iterated(old(View()), tick)
    {
      RegisterCoflow(tick.time);
      StartRegistered();
      SendRunning();
      ghost var s := View();
      var k := 0;
      done := false;
      while k < |tick.reports|
        invariant 0 <= k <= |tick.reports| && Valid() && !done
        invariant HandleAll(View(), tick.reports[k..]) == HandleAll(s, tick.reports)
      {
        assert tick.reports[k..][1..] == tick.reports[k + 1..];
        done := HandleReport(tick.reports[k]);
        if done {
          return;
        }
        k := k + 1;
      }
    }

    /** `run`, for as long as `ticks` says before `run_stop` is set. */
    method Run(ticks: seq<Tick>) returns (done: bool)
      requires Valid()
      modifies this, sCoflows
      ensures Valid() && Outcome(View(), done) == Scheduled(old(View()), ticks)
    {
      var k := 0;
      done := false;
      while k < |ticks|
        invariant 0 <= k <= |ticks| && Valid() && !done
        invariant Scheduled(View(), ticks[k..]) == Scheduled(old(View()), ticks)
      {
        assert ticks[k..][1..] == ticks[k + 1..];
        done := Iterate(ticks[k]);
        if done {
          return;
        }
        k := k + 1;
      }
    }
  }

  lemma NextMessage(c: CoflowView, todo: set<int>, id: int)
    requires todo != {} && id == Least(todo)
    requires forall k :: 0 <= k < |Ascending(todo)| ==> Ascending(todo)[k] in c.flows
    ensures id in c.flows
    ensures forall k :: 0 <= k < |Ascending(todo - {id})| ==> Ascending(todo - {id})[k] in c.flows
    ensures MessagesFor(c, Ascending(todo)) == [MessageFor(c, id)] + MessagesFor(c, Ascending(todo - {id}))
  {
    var ids, rest := Ascending(todo), Ascending(todo - {id});
    assert ids == [id] + rest;
    assert ids[0] == id && ids[1..] == rest;
    forall k | 0 <= k < |rest|
      ensures rest[k] in c.flows
    {
      assert ids[k + 1] == rest[k];
    }
  }

  lemma RatedOne(c: CoflowView, done: set<int>, id: int)
    requires id in c.flows && id !in done
    ensures Rated(c, done + {id}).flows == Rated(c, done).flows[id := Rated(c, done).flows[id].(currentMbs := SPEED)]
  {
  }

  lemma Moved(sent: seq<Message>, m: Message, rest: seq<Message>)
    ensures sent + [m] + rest == sent + ([m] + rest)
  {
  }
}
