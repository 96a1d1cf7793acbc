/** A coflow: a batch of flows that is finished when all of its flows have ended. */
module Coflows {

  datatype Flow = Flow(flowID: int, mapperID: int, reducerID: int, flowSizeMB: real, currentMbs: real,
                       ended: bool, endTime: int)

  datatype CoflowState = UNREGISTER | REGISTED | RUNNING | RUNNINGED | FINISHED

  datatype CoflowView = CoflowView(coflowID: int, startTime: real, state: CoflowState, flows: map<int, Flow>,
                                   endflowNum: nat, endtime: int)

  /** What `flowEnd` leaves: an unknown flow changes nothing. */
  function FlowEnded(c: CoflowView, flowID: int, endtime: int): CoflowView {
    if flowID !in c.flows then c
    else
      c.(flows := c.flows[flowID := c.flows[flowID].(ended := true, endTime := endtime)],
         endflowNum := c.endflowNum + 1,
         endtime := if Completes(c, flowID) then endtime else c.endtime)
  }

  /** What `flowEnd` returns. */
  predicate Completes(c: CoflowView, flowID: int) {
    flowID in c.flows && c.endflowNum + 1 >= |c.flows|
  }

  function Ended(flows: map<int, Flow>): set<int> {
    set id | id in flows && flows[id].ended
  }

  predicate AllEnded(c: CoflowView) {
    forall id :: id in c.flows ==> c.flows[id].ended
  }

  /** The counter is the number of ended flows. */
  predicate Counted(c: CoflowView) {
    c.endflowNum == |Ended(c.flows)|
  }

  lemma SubsetCount(a: set<int>, b: set<int>)
    requires a <= b
    ensures |a| <= |b| && (|a| == |b| <==> a == b)
  {
    assert b == a + (b - a);
    assert a != b ==> b - a != {};
  }

  lemma EndedIsAll(c: CoflowView)
    ensures AllEnded(c) <==> Ended(c.flows) == c.flows.Keys
  {
    if AllEnded(c) {
      forall id
        ensures id in Ended(c.flows) <==> id in c.flows.Keys
      {
      }
    } else {
      var id :| id in c.flows && !c.flows[id].ended;
      assert id !in Ended(c.flows) && id in c.flows.Keys;
    }
  }

  lemma EndedSubset(c: CoflowView)
    ensures |Ended(c.flows)| <= |c.flows|
    ensures AllEnded(c) <==> |Ended(c.flows)| == |c.flows|
  {
    EndedIsAll(c);
    SubsetCount(Ended(c.flows), c.flows.Keys);
    assert |c.flows| == |c.flows.Keys|;
  }

  /** The first report of a flow keeps the counter exact, and then `flowEnd` returns true exactly when
      no flow of the coflow is left running. */
  lemma FirstReportCounts(c: CoflowView, flowID: int, endtime: int)
    requires Counted(c) && flowID in c.flows && !c.flows[flowID].ended
    ensures Counted(FlowEnded(c, flowID, endtime))
    ensures Completes(c, flowID) <==> AllEnded(FlowEnded(c, flowID, endtime))
  {
    var d := FlowEnded(c, flowID, endtime);
    assert Ended(d.flows) == Ended(c.flows) + {flowID};
    assert d.flows.Keys == c.flows.Keys;
    assert |d.flows| == |d.flows.Keys| && |c.flows| == |c.flows.Keys|;
    EndedSubset(d);
  }

  /** A flow added to a coflow, in place of one with the same id. */
  function Added(c: CoflowView, flow: Flow): CoflowView {
    c.(flows := c.flows[flow.flowID := flow])
  }

  /** Adding a flow leaves the coflow unfinished, and its counter right exactly if no flow that has
      ended is replaced. */
  lemma AddedCountsIff(c: CoflowView, flow: Flow)
    requires Counted(c) && !flow.ended
    ensures !AllEnded(Added(c, flow))
    ensures Counted(Added(c, flow)) <==> !(flow.flowID in c.flows && c.flows[flow.flowID].ended)
  {
    var d := Added(c, flow);
    assert flow.flowID in d.flows && !d.flows[flow.flowID].ended;
    assert Ended(d.flows) == Ended(c.flows) - {flow.flowID};
  }

  class Coflow {
    const coflowID: int
    const startTime: real
    var coflowState: CoflowState
    var flowCollection: map<int, Flow>
    var endflowNum: nat
    var endtime: int

    ghost function View(): CoflowView
      reads this
    {
      CoflowView(coflowID, startTime, coflowState, flowCollection, endflowNum, endtime)
    }

    constructor (coflowID: int, startTime: real)
      ensures View() == CoflowView(coflowID, startTime, UNREGISTER, map[], 0, endtime)
    {
      this.coflowID, this.startTime := coflowID, startTime;
      coflowState, flowCollection, endflowNum := UNREGISTER, map[], 0;
    }

    method AddFlow(flowID: int, mapperID: int, reducerID: int, flowSizeMB: real)
      modifies this
      ensures View() == Added(old(View()), Flow(flowID, mapperID, reducerID, flowSizeMB, 0.0, false, 0))
    {
      flowCollection := flowCollection[flowID := Flow(flowID, mapperID, reducerID, flowSizeMB, 0.0, false, 0)];
    }

    method SetCoflowState(state: CoflowState)
      modifies this
      ensures View() == old(View()).(state := state)
    {
      coflowState := state;
    }

    method FlowEnd(flowID: int, endtime: int) returns (last: bool)
      modifies this
      ensures View() == FlowEnded(old(View()), flowID, endtime)
      ensures last == Completes(old(View()), flowID)
    {
      if flowID !in flowCollection {
        return false;
      }
      flowCollection := flowCollection[flowID := flowCollection[flowID].(ended := true, endTime := endtime)];
      endflowNum := endflowNum + 1;
      assert flowCollection.Keys == old(flowCollection.Keys);
      assert |flowCollection| == |flowCollection.Keys| && |old(flowCollection)| == |old(flowCollection.Keys)|;
      if endflowNum >= |flowCollection| {
        this.endtime := endtime;
        return true;
      }
      return false;
    }
  }
}
