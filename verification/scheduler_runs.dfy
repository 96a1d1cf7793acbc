/** What holds in every run of the scheduling loop: coflows are sent once each, as they fall due, and
  the run returns exactly when every flow of every coflow has ended. */
module SchedulerRuns {

  import opened Coflows
  import opened Schedulers

  /// ## Reports change progress only

  lemma HandleSame(s: State, r: Report)
    ensures SameWorks(s, Handle(s, r))
    ensures forall i :: 0 <= i < |s.coflows| ==> Handle(s, r).coflows[i].state == s.coflows[i].state
  {
  }

  lemma HandleSettles(s: State, r: Report)
    requires Settled(s)
    ensures Settled(Handle(s, r))
  {
    HandleSame(s, r);
    SameAllMessages(s, Handle(s, r), s.registerIndex);
  }

  lemma {:induction false} HandleAllSettles(s: State, reports: seq<Report>)
    requires Settled(s)
    ensures Settled(HandleAll(s, reports).state) && SameWorks(s, HandleAll(s, reports).state)
    decreases |reports|
  {
    if reports != [] {
      HandleSame(s, reports[0]);
      HandleSettles(s, reports[0]);
      if !Ends(s, reports[0]) {
        HandleAllSettles(Handle(s, reports[0]), reports[1..]);
      }
    }
  }

  /** One iteration: what fell due is registered and sent, and the loop is back in a settled state. */
  lemma IteratedSettles(s: State, tick: Tick)
    requires Settled(s)
    ensures Settled(Iterated(s, tick).state) && SameWorks(s, Iterated(s, tick).state)
    ensures Iterated(s, tick).state.registerIndex == Registered(s, tick.time).registerIndex
  {
    var a := s.registerIndex;
    RegisteredPhase(s, tick.time, a);
    var registered := Registered(s, tick.time);
    SameAllMessages(s, registered, a);
    StartedPhase(registered, a, 0);
    var started := StartedFrom(registered, 0);
    SameAllMessages(registered, started, a);
    SentPhase(started, a, 0);
    HandleAllSettles(SentFrom(started, 0), tick.reports);
  }

  /** Every state in which the loop begins an iteration, or has returned, is settled. */
  lemma {:induction false} ScheduledSettles(s: State, ticks: seq<Tick>)
    requires Settled(s)
    ensures Settled(Scheduled(s, ticks).state) && SameWorks(s, Scheduled(s, ticks).state)
    decreases |ticks|
  {
    if ticks != [] {
      IteratedSettles(s, ticks[0]);
      if !Iterated(s, ticks[0]).done {
        ScheduledSettles(Iterated(s, ticks[0]).state, ticks[1..]);
      }
    }
  }

  /// ## Each flow is sent once

  function Times(sent: seq<Message>, coflowID: int, flowID: int): nat {
    if sent == [] then 0
    else (if sent[0].coflowID == coflowID && sent[0].flowID == flowID then 1 else 0)
         + Times(sent[1..], coflowID, flowID)
  }

  lemma {:induction false} TimesAdds(a: seq<Message>, b: seq<Message>, coflowID: int, flowID: int)
    ensures Times(a + b, coflowID, flowID) == Times(a, coflowID, flowID) + Times(b, coflowID, flowID)
  {
    if a == [] {
      assert a + b == b;
    } else {
      TimesAdds(a[1..], b, coflowID, flowID);
      assert (a + b)[1..] == a[1..] + b;
    }
  }

  predicate Keyed(c: CoflowView) {
    forall id :: id in c.flows ==> c.flows[id].flowID == id
  }

  lemma {:induction false} TimesAscending(c: CoflowView, ids: set<int>, flowID: int)
    requires Keyed(c) && ids <= c.flows.Keys && forall k :: 0 <= k < |Ascending(ids)| ==> Ascending(ids)[k] in c.flows
    ensures Times(MessagesFor(c, Ascending(ids)), c.coflowID, flowID) == if flowID in ids then 1 else 0
    decreases |ids|
  {
    if ids != {} {
      var rest := ids - {Least(ids)};
      AscendingIn(rest);
      TimesAscending(c, rest, flowID);
      assert Ascending(ids) == [Least(ids)] + Ascending(rest);
      assert Ascending(ids)[1..] == Ascending(rest);
    }
  }

  lemma {:induction false} TimesElsewhere(c: CoflowView, ids: seq<int>, coflowID: int, flowID: int)
    requires c.coflowID != coflowID && forall k :: 0 <= k < |ids| ==> ids[k] in c.flows
    ensures Times(MessagesFor(c, ids), coflowID, flowID) == 0
  {
    if ids != [] {
      TimesElsewhere(c, ids[1..], coflowID, flowID);
    }
  }

  lemma TimesMessages(c: CoflowView, coflowID: int, flowID: int)
    requires Keyed(c)
    ensures Times(Messages(c), coflowID, flowID) == if c.coflowID == coflowID && flowID in c.flows then 1 else 0
  {
    AscendingIn(c.flows.Keys);
    if c.coflowID == coflowID {
      TimesAscending(c, c.flows.Keys, flowID);
    } else {
      TimesElsewhere(c, Ascending(c.flows.Keys), coflowID, flowID);
    }
  }

  lemma {:induction false} TimesAll(coflows: seq<CoflowView>, n: nat, i: nat, coflowID: int, flowID: int)
    requires n <= |coflows| && forall k :: 0 <= k < |coflows| ==> Keyed(coflows[k])
    requires forall k :: 0 <= k < |coflows| && k != i ==> coflows[k].coflowID != coflowID
    requires i < |coflows| ==> coflows[i].coflowID == coflowID
    ensures Times(AllMessages(coflows, n), coflowID, flowID)
         == if i < n && flowID in coflows[i].flows then 1 else 0
  {
    if n > 0 {
      TimesAll(coflows, n - 1, i, coflowID, flowID);
      TimesAdds(AllMessages(coflows, n - 1), Messages(coflows[n - 1]), coflowID, flowID);
      TimesMessages(coflows[n - 1], coflowID, flowID);
    }
  }

  lemma KeyedSame(s: State, r: State)
    requires SameWorks(s, r) && forall k :: 0 <= k < |s.coflows| ==> Keyed(s.coflows[k])
    ensures forall k :: 0 <= k < |r.coflows| ==> Keyed(r.coflows[k])
  {
    forall k | 0 <= k < |r.coflows|
      ensures Keyed(r.coflows[k])
    {
      assert SameWork(s.coflows[k], r.coflows[k]) && Keyed(s.coflows[k]);
      forall id | id in r.coflows[k].flows
        ensures r.coflows[k].flows[id].flowID == id
      {
        assert MessageFor(s.coflows[k], id) == MessageFor(r.coflows[k], id);
      }
    }
  }

  /** At any time a flow has been sent once if its coflow is registered, and otherwise not at all. */
  lemma EachFlowSentOnce(s: State, ticks: seq<Tick>, coflowID: int, flowID: int)
    requires Initial(s) && Distinct(s)
    ensures var r := Scheduled(s, ticks).state; var i := Target(r.coflows, coflowID);
            Times(r.sent, coflowID, flowID)
              == if i < |r.coflows| && i < r.registerIndex && flowID in r.coflows[i].flows then 1 else 0
  {
    ScheduledSettles(s, ticks);
    var r := Scheduled(s, ticks).state;
    KeyedSame(s, r);
    var i := Target(r.coflows, coflowID);
    forall k | 0 <= k < |r.coflows| && k != i
      ensures r.coflows[k].coflowID != coflowID
    {
      assert SameWork(s.coflows[k], r.coflows[k]);
      assert i < |s.coflows| ==> SameWork(s.coflows[i], r.coflows[i]);
    }
    TimesAll(r.coflows, r.registerIndex, i, coflowID, flowID);
  }

  /// ## What is sent, field by field

  /** A flow by the position of its coflow and its key. */
  datatype Place = Place(coflow: nat, flowID: int)

  predicate Before(p: Place, q: Place) {
    p.coflow < q.coflow || (p.coflow == q.coflow && p.flowID < q.flowID)
  }

  /** The message names coflow, flow, mapper, reducer and size of the flow, and the rate 10. */
  predicate Announces(m: Message, coflows: seq<CoflowView>, p: Place) {
    && p.coflow < |coflows| && p.flowID in coflows[p.coflow].flows
    && var c := coflows[p.coflow];
       var f := c.flows[p.flowID];
       && m.coflowID == c.coflowID && m.flowID == p.flowID
       && m.mapperID == f.mapperID && m.reducerID == f.reducerID
       && m.sizeMB == f.flowSizeMB && m.speedMbs == 10.0
  }

  /** The k-th message announces the k-th place; the places are in order, without gap up to coflow `n`. */
  predicate Announced(sent: seq<Message>, coflows: seq<CoflowView>, n: nat, places: seq<Place>) {
    && |places| == |sent|
    && (forall k :: 0 <= k < |places| ==> places[k].coflow < n && Announces(sent[k], coflows, places[k]))
    && (forall k, l :: 0 <= k < l < |places| ==> Before(places[k], places[l]))
    && (forall i: nat, id :: i < n && i < |coflows| && id in coflows[i].flows ==> Place(i, id) in places)
  }

  lemma {:induction false} AscendingOrder(s: set<int>)
    ensures forall k, l :: 0 <= k < l < |Ascending(s)| ==> Ascending(s)[k] < Ascending(s)[l]
    ensures forall id :: id in s ==> id in Ascending(s)
    decreases |s|
  {
    if s != {} {
      var rest := s - {Least(s)};
      AscendingOrder(rest);
      AscendingIn(rest);
    }
  }

  lemma {:induction false} MessagesForAt(c: CoflowView, ids: seq<int>, k: nat)
    requires (forall j :: 0 <= j < |ids| ==> ids[j] in c.flows) && k < |ids|
    ensures |MessagesFor(c, ids)| == |ids| && MessagesFor(c, ids)[k] == MessageFor(c, ids[k])
  {
    if k > 0 {
      MessagesForAt(c, ids[1..], k - 1);
    } else if |ids| > 1 {
      MessagesForAt(c, ids[1..], 0);
    }
  }

  lemma {:induction false} AnnouncedAll(coflows: seq<CoflowView>, n: nat) returns (places: seq<Place>)
    requires n <= |coflows| && forall i :: 0 <= i < n ==> Keyed(coflows[i])
    ensures Announced(AllMessages(coflows, n), coflows, n, places)
  {
    if n == 0 {
      return [];
    }
    var front := AnnouncedAll(coflows, n - 1);
    var back := AnnouncedOne(coflows, n - 1);
    AnnouncedMore(coflows, n - 1, AllMessages(coflows, n - 1), front, Messages(coflows[n - 1]), back);
    return front + back;
  }

  /** The messages for coflow `i`, in order and complete. */
  predicate AnnouncedAt(sent: seq<Message>, coflows: seq<CoflowView>, i: nat, places: seq<Place>)
    requires i < |coflows|
  {
    && |places| == |sent|
    && (forall k :: 0 <= k < |places| ==> places[k].coflow == i && Announces(sent[k], coflows, places[k]))
    && (forall k, l :: 0 <= k < l < |places| ==> Before(places[k], places[l]))
    && (forall id :: id in coflows[i].flows ==> Place(i, id) in places)
  }

  lemma AnnouncedMore(coflows: seq<CoflowView>, n: nat, sent: seq<Message>, front: seq<Place>,
                      more: seq<Message>, back: seq<Place>)
    requires n < |coflows| && Announced(sent, coflows, n, front) && AnnouncedAt(more, coflows, n, back)
    ensures Announced(sent + more, coflows, n + 1, front + back)
  {
    var places := front + back;
    assert |front| == |sent|;
    forall i: nat, id | i < n + 1 && id in coflows[i].flows
      ensures Place(i, id) in places
    {
      assert if i < n then Place(i, id) in front else Place(i, id) in back;
    }
    forall k, l | 0 <= k < l < |places|
      ensures Before(places[k], places[l])
    {
      assert places[k] == if k < |front| then front[k] else back[k - |front|];
      assert places[l] == if l < |front| then front[l] else back[l - |front|];
    }
  }

  lemma AnnouncedOne(coflows: seq<CoflowView>, i: nat) returns (places: seq<Place>)
    requires i < |coflows| && Keyed(coflows[i])
    ensures AnnouncedAt(Messages(coflows[i]), coflows, i, places)
  {
    var c := coflows[i];
    var ids := Ascending(c.flows.Keys);
    AscendingIn(c.flows.Keys);
    AscendingOrder(c.flows.Keys);
    places := seq(|ids|, k requires 0 <= k < |ids| => Place(i, ids[k]));
    if ids != [] {
      MessagesForAt(c, ids, 0);
    }
    forall k | 0 <= k < |ids|
      ensures MessagesFor(c, ids)[k] == MessageFor(c, ids[k])
    {
      MessagesForAt(c, ids, k);
    }
    forall id | id in c.flows
      ensures Place(i, id) in places
    {
      assert id in c.flows.Keys;
      var k :| 0 <= k < |ids| && ids[k] == id;
      assert places[k] == Place(i, id);
    }
  }

  /** At any time the messages are those for the flows that the coflows registered so far had at the
      start: each flow has its message, each message is for such a flow and carries its data, and they
      are in the order of the coflows and, in a coflow, of the flow ids. */
  lemma SentIsAnnounced(s: State, ticks: seq<Tick>) returns (places: seq<Place>)
    requires Initial(s)
    ensures var r := Scheduled(s, ticks).state;
            Announced(r.sent, s.coflows, r.registerIndex, places)
  {
    ScheduledSettles(s, ticks);
    var r := Scheduled(s, ticks).state;
    SameAllMessages(s, r, r.registerIndex);
    places := AnnouncedAll(s.coflows, r.registerIndex);
  }

  /// ## What coflowFinishedNum counts, whatever is reported

  /** How often `flowEnd` has returned true for a coflow. */
  function Excess(c: CoflowView): nat {
    if |c.flows| > 0 && c.endflowNum >= |c.flows| then c.endflowNum - |c.flows| + 1 else 0
  }

  function TotalExcess(coflows: seq<CoflowView>): nat {
    if coflows == [] then 0 else TotalExcess(coflows[..|coflows| - 1]) + Excess(coflows[|coflows| - 1])
  }

  lemma {:induction false} TotalExcessUpdate(coflows: seq<CoflowView>, i: nat, c: CoflowView)
    requires i < |coflows|
    ensures TotalExcess(coflows[i := c]) + Excess(coflows[i]) == TotalExcess(coflows) + Excess(c)
  {
    var front := coflows[..|coflows| - 1];
    if i == |coflows| - 1 {
      assert coflows[i := c][..i] == front;
    } else {
      TotalExcessUpdate(front, i, c);
      assert coflows[i := c][..|coflows| - 1] == front[i := c];
    }
  }

  lemma EndExcess(c: CoflowView, flowID: int, endtime: int)
    ensures Excess(FlowEnded(c, flowID, endtime)) == Excess(c) + (if Completes(c, flowID) then 1 else 0)
  {
    if flowID in c.flows {
      var d := FlowEnded(c, flowID, endtime);
      assert d.flows.Keys == c.flows.Keys;
      assert |d.flows| == |d.flows.Keys| && |c.flows| == |c.flows.Keys|;
      assert c.flows != map[];
    }
  }

  lemma HandleExcess(s: State, r: Report)
    requires s.finished == TotalExcess(s.coflows)
    ensures Handle(s, r).finished == TotalExcess(Handle(s, r).coflows)
  {
    var i := Target(s.coflows, r.coflowID);
    if i < |s.coflows| {
      EndExcess(s.coflows[i], r.flowID, r.endtime);
      TotalExcessUpdate(s.coflows, i, FlowEnded(s.coflows[i], r.flowID, r.endtime));
    }
  }

  lemma {:induction false} SameExcess(s: State, r: State, n: nat)
    requires n <= |s.coflows| == |r.coflows|
    requires forall i :: 0 <= i < |s.coflows| ==>
               s.coflows[i].endflowNum == r.coflows[i].endflowNum && s.coflows[i].flows.Keys == r.coflows[i].flows.Keys
    ensures TotalExcess(s.coflows[..n]) == TotalExcess(r.coflows[..n])
  {
    if n > 0 {
      SameExcess(s, r, n - 1);
      assert s.coflows[..n][..n - 1] == s.coflows[..n - 1] && r.coflows[..n][..n - 1] == r.coflows[..n - 1];
      assert |s.coflows[n - 1].flows| == |s.coflows[n - 1].flows.Keys|;
      assert |r.coflows[n - 1].flows| == |r.coflows[n - 1].flows.Keys|;
    }
  }

  /// ## When each flow is reported at most once

  predicate Reported(handled: seq<Report>, coflowID: int, flowID: int) {
    exists k :: 0 <= k < |handled| && handled[k].coflowID == coflowID && handled[k].flowID == flowID
  }

  predicate AtMostOnce(handled: seq<Report>) {
    forall k, l :: 0 <= k < l < |handled| ==>
      !(handled[k].coflowID == handled[l].coflowID && handled[k].flowID == handled[l].flowID)
  }

  /** A flow has ended exactly if it was reported; reports that come once keep every count exact. */
  ghost predicate Tracked(s: State) {
    && s.finished == TotalExcess(s.coflows) && Distinct(s)
    && (forall i, f :: 0 <= i < |s.coflows| && f in s.coflows[i].flows ==>
          (s.coflows[i].flows[f].ended <==> Reported(s.handled, s.coflows[i].coflowID, f)))
    && (AtMostOnce(s.handled) ==> forall i :: 0 <= i < |s.coflows| ==> Counted(s.coflows[i]))
  }

  lemma ReportedMore(handled: seq<Report>, r: Report, coflowID: int, flowID: int)
    ensures Reported(handled + [r], coflowID, flowID)
       <==> Reported(handled, coflowID, flowID) || (r.coflowID == coflowID && r.flowID == flowID)
  {
    var more := handled + [r];
    assert more[|handled|] == r;
    if Reported(handled, coflowID, flowID) {
      var k :| 0 <= k < |handled| && handled[k].coflowID == coflowID && handled[k].flowID == flowID;
      assert more[k] == handled[k];
    }
  }

  lemma OnceMeansNew(handled: seq<Report>, r: Report)
    requires AtMostOnce(handled + [r])
    ensures AtMostOnce(handled) && !Reported(handled, r.coflowID, r.flowID)
  {
    var more := handled + [r];
    assert more[|handled|] == r && forall k :: 0 <= k < |handled| ==> more[k] == handled[k];
  }

  lemma TargetDistinct(s: State, i: nat)
    requires Distinct(s) && i < |s.coflows|
    ensures Target(s.coflows, s.coflows[i].coflowID) == i
  {
  }

  lemma HandleEndedIff(s: State, r: Report, i: nat, f: int)
    requires Tracked(s) && i < |s.coflows| && f in s.coflows[i].flows
    ensures f in Handle(s, r).coflows[i].flows
    ensures Handle(s, r).coflows[i].flows[f].ended
       <==> Reported(Handle(s, r).handled, Handle(s, r).coflows[i].coflowID, f)
  {
    ReportedMore(s.handled, r, s.coflows[i].coflowID, f);
    TargetDistinct(s, i);
  }

  lemma HandleCounted(s: State, r: Report, i: nat)
    requires Tracked(s) && AtMostOnce(s.handled + [r]) && i < |s.coflows|
    ensures Counted(Handle(s, r).coflows[i])
  {
    OnceMeansNew(s.handled, r);
    var c := s.coflows[i];
    assert Counted(c);
    if i == Target(s.coflows, r.coflowID) && r.flowID in c.flows {
      FirstReportCounts(c, r.flowID, r.endtime);
    }
  }

  lemma HandleTracks(s: State, r: Report)
    requires Tracked(s)
    ensures Tracked(Handle(s, r))
  {
    HandleExcess(s, r);
    HandleSame(s, r);
    var t := Handle(s, r);
    forall i, f | 0 <= i < |t.coflows| && f in t.coflows[i].flows
      ensures t.coflows[i].flows[f].ended <==> Reported(t.handled, t.coflows[i].coflowID, f)
    {
      assert SameWork(s.coflows[i], t.coflows[i]);
      HandleEndedIff(s, r, i, f);
    }
    forall i | AtMostOnce(t.handled) && 0 <= i < |t.coflows|
      ensures Counted(t.coflows[i])
    {
      HandleCounted(s, r, i);
    }
    assert forall i :: 0 <= i < |t.coflows| ==> SameWork(s.coflows[i], t.coflows[i]);
  }

  /// ## The run returns exactly when all has ended

  predicate Complete(c: CoflowView) {
    |c.flows| > 0 && AllEnded(c)
  }

  predicate AllComplete(coflows: seq<CoflowView>) {
    forall i :: 0 <= i < |coflows| ==> Complete(coflows[i])
  }

  lemma CountedExcess(c: CoflowView)
    requires Counted(c)
    ensures Excess(c) == if Complete(c) then 1 else 0
  {
    EndedSubset(c);
  }

  lemma {:induction false} AllCompleteIff(coflows: seq<CoflowView>)
    requires forall i :: 0 <= i < |coflows| ==> Counted(coflows[i])
    ensures TotalExcess(coflows) <= |coflows|
    ensures AllComplete(coflows) <==> TotalExcess(coflows) == |coflows|
  {
    if coflows != [] {
      var front, c := coflows[..|coflows| - 1], coflows[|coflows| - 1];
      AllCompleteIff(front);
      CountedExcess(c);
      assert AllComplete(coflows) <==> AllComplete(front) && Complete(c);
    }
  }

  /** Every coflow has flows, and all of them have ended. */
  predicate Finished(s: State) {
    s.coflows != [] && AllComplete(s.coflows)
  }

  /** A report ends the run exactly if it ends the last running flow of all. */
  lemma EndsIff(s: State, r: Report)
    requires Tracked(s) && AtMostOnce(s.handled + [r]) && !Finished(s)
    ensures Ends(s, r) <==> Finished(Handle(s, r))
  {
    var t := Handle(s, r);
    HandleTracks(s, r);
    OnceMeansNew(s.handled, r);
    AllCompleteIff(s.coflows);
    AllCompleteIff(t.coflows);
    assert s.coflows == [] ==> t.coflows == [];
  }

  lemma {:induction false} HandledGrows(s: State, reports: seq<Report>)
    ensures s.handled <= HandleAll(s, reports).state.handled
    decreases |reports|
  {
    if reports != [] && !Ends(s, reports[0]) {
      HandledGrows(Handle(s, reports[0]), reports[1..]);
    }
  }

  lemma OncePrefix(a: seq<Report>, b: seq<Report>)
    requires a <= b && AtMostOnce(b)
    ensures AtMostOnce(a)
  {
  }

  lemma {:induction false} HandleAllIff(s: State, reports: seq<Report>)
    requires Tracked(s) && !Finished(s) && AtMostOnce(HandleAll(s, reports).state.handled)
    ensures Tracked(HandleAll(s, reports).state)
    ensures HandleAll(s, reports).done <==> Finished(HandleAll(s, reports).state)
    decreases |reports|
  {
    if reports != [] {
      var next := Handle(s, reports[0]);
      HandleTracks(s, reports[0]);
      if Ends(s, reports[0]) {
        EndsIff(s, reports[0]);
      } else {
        HandledGrows(next, reports[1..]);
        OncePrefix(next.handled, HandleAll(s, reports).state.handled);
        EndsIff(s, reports[0]);
        HandleAllIff(next, reports[1..]);
      }
    }
  }

  /** Sending leaves what is counted alone. */
  predicate SameProgress(s: State, r: State) {
    && |s.coflows| == |r.coflows| && s.finished == r.finished && s.handled == r.handled
    && forall i :: 0 <= i < |s.coflows| ==>
         && s.coflows[i].coflowID == r.coflows[i].coflowID && s.coflows[i].endflowNum == r.coflows[i].endflowNum
         && s.coflows[i].flows.Keys == r.coflows[i].flows.Keys
         && forall f :: f in s.coflows[i].flows ==> s.coflows[i].flows[f].ended == r.coflows[i].flows[f].ended
  }

  lemma {:induction false} RegisteredProgress(s: State, t: real)
    requires Sane(s)
    ensures SameProgress(s, Registered(s, t))
    decreases |s.coflows| - s.registerIndex
  {
    var i := s.registerIndex;
    if i < |s.coflows| && s.coflows[i].startTime <= t {
      RegisteredProgress(With(s, i, s.coflows[i].(state := REGISTED)).(registerIndex := i + 1), t);
    }
  }

  lemma {:induction false} StartedProgress(s: State, i: nat)
    requires i <= s.registerIndex <= |s.coflows|
    ensures SameProgress(s, StartedFrom(s, i))
    decreases s.registerIndex - i
  {
    if i < s.registerIndex {
      StartedProgress(StartOne(s, i), i + 1);
    }
  }

  lemma {:induction false} SentProgress(s: State, i: nat)
    requires i <= s.registerIndex <= |s.coflows|
    ensures SameProgress(s, SentFrom(s, i))
    decreases s.registerIndex - i
  {
    if i < s.registerIndex {
      SentProgress(SendOne(s, i), i + 1);
    }
  }

  /** The state when the reports of an iteration are read. */
  ghost function BeforeReports(s: State, tick: Tick): State
    requires Sane(s)
  {
    SentFrom(StartedFrom(Registered(s, tick.time), 0), 0)
  }

  lemma ProgressBeforeReports(s: State, tick: Tick)
    requires Sane(s)
    ensures SameProgress(s, BeforeReports(s, tick))
    ensures Iterated(s, tick) == HandleAll(BeforeReports(s, tick), tick.reports)
  {
    var registered := Registered(s, tick.time);
    RegisteredProgress(s, tick.time);
    StartedProgress(registered, 0);
    SentProgress(StartedFrom(registered, 0), 0);
    ProgressJoins(s, registered, StartedFrom(registered, 0));
    ProgressJoins(s, StartedFrom(registered, 0), BeforeReports(s, tick));
  }

  lemma ProgressJoins(a: State, b: State, c: State)
    requires SameProgress(a, b) && SameProgress(b, c)
    ensures SameProgress(a, c)
  {
    forall i | 0 <= i < |a.coflows|
      ensures a.coflows[i].flows.Keys == c.coflows[i].flows.Keys
      ensures forall f :: f in a.coflows[i].flows ==> a.coflows[i].flows[f].ended == c.coflows[i].flows[f].ended
    {
      assert a.coflows[i].flows.Keys == b.coflows[i].flows.Keys == c.coflows[i].flows.Keys;
      forall f | f in a.coflows[i].flows
        ensures a.coflows[i].flows[f].ended == c.coflows[i].flows[f].ended
      {
        assert f in b.coflows[i].flows.Keys;
      }
    }
  }

  lemma ProgressTracks(s: State, r: State)
    requires Tracked(s) && SameProgress(s, r)
    ensures Tracked(r) && (Finished(s) <==> Finished(r))
  {
    SameExcess(s, r, |s.coflows|);
    assert s.coflows[..|s.coflows|] == s.coflows && r.coflows[..|r.coflows|] == r.coflows;
    forall i | 0 <= i < |s.coflows|
      ensures Ended(s.coflows[i].flows) == Ended(r.coflows[i].flows)
      ensures Complete(s.coflows[i]) <==> Complete(r.coflows[i])
    {
      ProgressOfOne(s, r, i);
    }
  }

  lemma ProgressOfOne(s: State, r: State, i: nat)
    requires SameProgress(s, r) && i < |s.coflows|
    ensures Ended(s.coflows[i].flows) == Ended(r.coflows[i].flows)
    ensures Complete(s.coflows[i]) <==> Complete(r.coflows[i])
  {
    var a, b := s.coflows[i].flows, r.coflows[i].flows;
    assert a.Keys == b.Keys && |a| == |a.Keys| && |b| == |b.Keys|;
    forall f
      ensures (f in a <==> f in b) && (f in Ended(a) <==> f in Ended(b))
    {
      assert f in a.Keys <==> f in b.Keys;
    }
  }

  lemma {:induction false} ScheduledIff(s: State, ticks: seq<Tick>)
    requires Sane(s) && Tracked(s) && !Finished(s) && AtMostOnce(Scheduled(s, ticks).state.handled)
    ensures Tracked(Scheduled(s, ticks).state)
    ensures Scheduled(s, ticks).done <==> Finished(Scheduled(s, ticks).state)
    decreases |ticks|
  {
    if ticks != [] {
      var sent := BeforeReports(s, ticks[0]);
      ProgressBeforeReports(s, ticks[0]);
      ProgressTracks(s, sent);
      var one := HandleAll(sent, ticks[0].reports);
      if one.done {
        HandleAllIff(sent, ticks[0].reports);
      } else {
        ScheduledGrows(one.state, ticks[1..]);
        OncePrefix(one.state.handled, Scheduled(s, ticks).state.handled);
        HandleAllIff(sent, ticks[0].reports);
        ScheduledIff(one.state, ticks[1..]);
      }
    }
  }

  lemma {:induction false} ScheduledGrows(s: State, ticks: seq<Tick>)
    requires Sane(s)
    ensures s.handled <= Scheduled(s, ticks).state.handled
    decreases |ticks|
  {
    if ticks != [] {
      ProgressBeforeReports(s, ticks[0]);
      HandledGrows(BeforeReports(s, ticks[0]), ticks[0].reports);
      if !Iterated(s, ticks[0]).done {
        ScheduledGrows(Iterated(s, ticks[0]).state, ticks[1..]);
      }
    }
  }

  lemma {:induction false} NoExcess(coflows: seq<CoflowView>)
    requires forall i :: 0 <= i < |coflows| ==> coflows[i].endflowNum == 0
    ensures TotalExcess(coflows) == 0
  {
    if coflows != [] {
      NoExcess(coflows[..|coflows| - 1]);
    }
  }

  lemma NewCoflow(c: CoflowView)
    requires forall id :: id in c.flows ==> !c.flows[id].ended
    ensures Ended(c.flows) == {} && !Complete(c)
  {
    assert |c.flows| == |c.flows.Keys|;
    assert (forall f: int :: f !in c.flows) ==> c.flows.Keys == {};
    assert forall f :: f !in Ended(c.flows);
  }

  lemma InitialTracked(s: State)
    requires Initial(s) && Distinct(s)
    ensures Tracked(s) && !Finished(s)
  {
    NoExcess(s.coflows);
    forall i | 0 <= i < |s.coflows|
      ensures Ended(s.coflows[i].flows) == {} && !Complete(s.coflows[i])
    {
      NewCoflow(s.coflows[i]);
    }
  }

  /// ## What the reports decide

  /** All reports that the iterations meet, in order. */
  function AllReports(ticks: seq<Tick>): seq<Report> {
    if ticks == [] then [] else ticks[0].reports + AllReports(ticks[1..])
  }

  /** How many reports name a flow of coflow `i`; a report is for the first coflow with its id. */
  function Named(coflows: seq<CoflowView>, i: nat, reports: seq<Report>): nat
    requires i < |coflows|
  {
    if reports == [] then 0
    else
      var r := reports[|reports| - 1];
      Named(coflows, i, reports[..|reports| - 1])
      + (if Target(coflows, r.coflowID) == i && r.flowID in coflows[i].flows then 1 else 0)
  }

  /** How often `flowEnd` returns true for a coflow of `flows` flows that is reported `reports` times. */
  function Over(flows: nat, reports: nat): nat {
    if flows > 0 && reports >= flows then reports - flows + 1 else 0
  }

  /** The sum of `Over` for the first `n` coflows. */
  function Credit(coflows: seq<CoflowView>, n: nat, reports: seq<Report>): nat
    requires n <= |coflows|
  {
    if n == 0 then 0
    else Credit(coflows, n - 1, reports) + Over(|coflows[n - 1].flows|, Named(coflows, n - 1, reports))
  }

  /** The reports are enough to end the run. */
  predicate Enough(coflows: seq<CoflowView>, reports: seq<Report>) {
    |coflows| > 0 && Credit(coflows, |coflows|, reports) >= |coflows|
  }

  /** Same ids and same flows. */
  predicate SameFlows(cs: seq<CoflowView>, ds: seq<CoflowView>) {
    && |cs| == |ds|
    && forall i :: 0 <= i < |cs| ==> cs[i].coflowID == ds[i].coflowID && cs[i].flows.Keys == ds[i].flows.Keys
  }

  lemma SameTarget(cs: seq<CoflowView>, ds: seq<CoflowView>, coflowID: int)
    requires SameFlows(cs, ds)
    ensures Target(cs, coflowID) == Target(ds, coflowID)
  {
    var i, j := Target(cs, coflowID), Target(ds, coflowID);
    assert i < |cs| ==> ds[i].coflowID == coflowID;
    assert j < |ds| ==> cs[j].coflowID == coflowID;
  }

  lemma NamedMore(cs: seq<CoflowView>, i: nat, reports: seq<Report>, r: Report)
    requires i < |cs|
    ensures Named(cs, i, reports + [r])
         == Named(cs, i, reports) + (if Target(cs, r.coflowID) == i && r.flowID in cs[i].flows then 1 else 0)
  {
    assert (reports + [r])[..|reports|] == reports;
  }

  lemma {:induction false} CreditGrows(cs: seq<CoflowView>, n: nat, reports: seq<Report>, r: Report)
    requires n <= |cs|
    ensures Credit(cs, n, reports) <= Credit(cs, n, reports + [r])
  {
    if n > 0 {
      CreditGrows(cs, n - 1, reports, r);
      NamedMore(cs, n - 1, reports, r);
    }
  }

  lemma {:induction false} CreditPrefix(cs: seq<CoflowView>, n: nat, a: seq<Report>, b: seq<Report>)
    requires n <= |cs| && a <= b
    ensures Credit(cs, n, a) <= Credit(cs, n, b)
    decreases |b|
  {
    if a == b {
    } else {
      var front, last := b[..|b| - 1], b[|b| - 1];
      CreditPrefix(cs, n, a, front);
      CreditGrows(cs, n, front, last);
      assert front + [last] == b;
    }
  }

  /** Every counter is the number of handled reports that name a flow of its coflow. */
  predicate Accounted(cs: seq<CoflowView>, s: State) {
    && SameFlows(cs, s.coflows)
    && s.finished == TotalExcess(s.coflows)
    && forall i :: 0 <= i < |cs| ==> s.coflows[i].endflowNum == Named(cs, i, s.handled)
  }

  lemma {:induction false} ExcessIsCredit(cs: seq<CoflowView>, s: State, n: nat)
    requires Accounted(cs, s) && n <= |cs|
    ensures TotalExcess(s.coflows[..n]) == Credit(cs, n, s.handled)
  {
    if n > 0 {
      ExcessIsCredit(cs, s, n - 1);
      assert s.coflows[..n][..n - 1] == s.coflows[..n - 1];
      var c, d := s.coflows[n - 1], cs[n - 1];
      assert |c.flows| == |c.flows.Keys| && |d.flows| == |d.flows.Keys|;
    }
  }

  /** coflowFinishedNum, whatever has been reported. */
  lemma FinishedIsCredit(cs: seq<CoflowView>, s: State)
    requires Accounted(cs, s)
    ensures s.finished == Credit(cs, |cs|, s.handled)
  {
    ExcessIsCredit(cs, s, |cs|);
    assert s.coflows[..|cs|] == s.coflows;
  }

  lemma HandleAccounts(cs: seq<CoflowView>, s: State, r: Report)
    requires Accounted(cs, s)
    ensures Accounted(cs, Handle(s, r))
  {
    HandleExcess(s, r);
    HandleSame(s, r);
    SameTarget(cs, s.coflows, r.coflowID);
    var t := Handle(s, r);
    forall i | 0 <= i < |cs|
      ensures t.coflows[i].endflowNum == Named(cs, i, t.handled)
      ensures cs[i].coflowID == t.coflows[i].coflowID && cs[i].flows.Keys == t.coflows[i].flows.Keys
    {
      NamedMore(cs, i, s.handled, r);
      assert SameWork(s.coflows[i], t.coflows[i]);
      assert r.flowID in cs[i].flows.Keys <==> r.flowID in s.coflows[i].flows.Keys;
    }
  }

  /** While the reports handled are not enough, a report ends the run exactly if it makes them so. */
  lemma EndsIfEnough(cs: seq<CoflowView>, s: State, r: Report)
    requires Accounted(cs, s) && !Enough(cs, s.handled)
    ensures Ends(s, r) <==> Enough(cs, s.handled + [r])
  {
    HandleAccounts(cs, s, r);
    FinishedIsCredit(cs, s);
    FinishedIsCredit(cs, Handle(s, r));
  }

  /** The reports `all`, of which the first `|s.handled|` are handled, end the run when they first are
      enough, and otherwise are all handled. */
  predicate DecidedBy(cs: seq<CoflowView>, all: seq<Report>, o: Outcome) {
    && o.state.handled <= all && Accounted(cs, o.state)
    && (o.done <==> Enough(cs, all))
    && (o.done ==> Enough(cs, o.state.handled))
    && (!o.done ==> o.state.handled == all)
    && forall k :: 0 <= k < |o.state.handled| ==> !Enough(cs, o.state.handled[..k])
  }

  predicate NeverEnough(cs: seq<CoflowView>, reports: seq<Report>) {
    forall k :: 0 <= k <= |reports| ==> !Enough(cs, reports[..k])
  }

  lemma NotEnoughMore(cs: seq<CoflowView>, reports: seq<Report>, r: Report)
    requires NeverEnough(cs, reports) && !Enough(cs, reports + [r])
    ensures NeverEnough(cs, reports + [r])
  {
    var more := reports + [r];
    forall k | 0 <= k <= |more|
      ensures !Enough(cs, more[..k])
    {
      if k <= |reports| {
        assert more[..k] == reports[..k];
      } else {
        assert more[..k] == more;
      }
    }
  }

  lemma NeverEnoughWhole(cs: seq<CoflowView>, reports: seq<Report>)
    requires NeverEnough(cs, reports)
    ensures !Enough(cs, reports)
  {
    assert reports[..|reports|] == reports;
  }

  /** A report that makes the reports enough ends the run. */
  lemma EndDecided(cs: seq<CoflowView>, s: State, r: Report, rest: seq<Report>)
    requires Accounted(cs, s) && NeverEnough(cs, s.handled) && Ends(s, r)
    ensures DecidedBy(cs, s.handled + ([r] + rest), Outcome(Handle(s, r), true))
  {
    NeverEnoughWhole(cs, s.handled);
    EndsIfEnough(cs, s, r);
    HandleAccounts(cs, s, r);
    ReportsJoin(s.handled, [r], rest);
    var handled := s.handled + [r];
    CreditPrefix(cs, |cs|, handled, handled + rest);
    forall k | 0 <= k < |handled|
      ensures !Enough(cs, handled[..k])
    {
      assert handled[..k] == s.handled[..k];
    }
  }

  lemma {:induction false} HandleAllDecided(cs: seq<CoflowView>, s: State, reports: seq<Report>)
    requires Accounted(cs, s) && NeverEnough(cs, s.handled)
    ensures DecidedBy(cs, s.handled + reports, HandleAll(s, reports))
    ensures !HandleAll(s, reports).done ==> NeverEnough(cs, HandleAll(s, reports).state.handled)
    decreases |reports|
  {
    if reports == [] {
      NeverEnoughWhole(cs, s.handled);
      assert s.handled + [] == s.handled;
    } else {
      var r, rest := reports[0], reports[1..];
      assert reports == [r] + rest;
      if Ends(s, r) {
        EndDecided(cs, s, r, rest);
      } else {
        NeverEnoughWhole(cs, s.handled);
        EndsIfEnough(cs, s, r);
        HandleAccounts(cs, s, r);
        NotEnoughMore(cs, s.handled, r);
        HandleAllDecided(cs, Handle(s, r), rest);
        ReportsJoin(s.handled, [r], rest);
      }
    }
  }

  lemma ProgressAccounts(cs: seq<CoflowView>, s: State, r: State)
    requires Accounted(cs, s) && SameProgress(s, r)
    ensures Accounted(cs, r)
  {
    SameExcess(s, r, |s.coflows|);
    assert s.coflows[..|s.coflows|] == s.coflows && r.coflows[..|r.coflows|] == r.coflows;
  }

  /** What ended the run is not undone by later reports. */
  lemma DecidedFurther(cs: seq<CoflowView>, a: seq<Report>, b: seq<Report>, c: seq<Report>, o: Outcome)
    requires DecidedBy(cs, a + b, o) && o.done
    ensures DecidedBy(cs, a + (b + c), o)
  {
    assert a + (b + c) == a + b + c;
    CreditPrefix(cs, |cs|, a + b, a + b + c);
  }

  lemma IteratedDecided(cs: seq<CoflowView>, s: State, tick: Tick)
    requires Sane(s) && Accounted(cs, s) && NeverEnough(cs, s.handled)
    ensures DecidedBy(cs, s.handled + tick.reports, Iterated(s, tick))
    ensures !Iterated(s, tick).done ==> NeverEnough(cs, Iterated(s, tick).state.handled)
  {
    ProgressBeforeReports(s, tick);
    ProgressAccounts(cs, s, BeforeReports(s, tick));
    HandleAllDecided(cs, BeforeReports(s, tick), tick.reports);
  }

  lemma {:induction false} ScheduledDecided(cs: seq<CoflowView>, s: State, ticks: seq<Tick>)
    requires Sane(s) && Accounted(cs, s) && NeverEnough(cs, s.handled)
    ensures DecidedBy(cs, s.handled + AllReports(ticks), Scheduled(s, ticks))
    decreases |ticks|
  {
    if ticks == [] {
      NeverEnoughWhole(cs, s.handled);
      assert s.handled + [] == s.handled;
    } else {
      var rest := AllReports(ticks[1..]);
      IteratedDecided(cs, s, ticks[0]);
      if Iterated(s, ticks[0]).done {
        DecidedFurther(cs, s.handled, ticks[0].reports, rest, Iterated(s, ticks[0]));
      } else {
        ScheduledDecided(cs, Iterated(s, ticks[0]).state, ticks[1..]);
        ReportsJoin(s.handled, ticks[0].reports, rest);
      }
    }
  }

  lemma ReportsJoin(a: seq<Report>, b: seq<Report>, c: seq<Report>)
    ensures a + (b + c) == a + b + c
  {
  }

  lemma InitialAccounted(s: State)
    requires Initial(s)
    ensures Accounted(s.coflows, s) && NeverEnough(s.coflows, s.handled)
  {
    NoExcess(s.coflows);
    FinishedIsCredit(s.coflows, s);
  }

  /** For any reports at all: the run returns exactly if the reports are enough, that is if the coflows
      are reported, past their last flows, as often together as there are coflows. It returns with the
      first report that makes them enough, and coflowFinishedNum counts that excess. */
  lemma ReturnsIffEnough(s: State, ticks: seq<Tick>)
    requires Initial(s)
    ensures var o := Scheduled(s, ticks);
            && (o.done <==> Enough(s.coflows, AllReports(ticks)))
            && o.state.handled <= AllReports(ticks) && (!o.done ==> o.state.handled == AllReports(ticks))
            && o.state.finished == Credit(s.coflows, |s.coflows|, o.state.handled)
            && (o.done ==> FirstEnough(s.coflows, AllReports(ticks), |o.state.handled|))
  {
    var o, all := Scheduled(s, ticks), AllReports(ticks);
    InitialAccounted(s);
    ScheduledDecided(s.coflows, s, ticks);
    assert [] + all == all;
    FinishedIsCredit(s.coflows, o.state);
    assert o.state.handled == all[..|o.state.handled|];
    forall k | 0 <= k < |o.state.handled|
      ensures all[..k] == o.state.handled[..k]
    {
    }
  }

  /** The first `k` reports are enough, and fewer are not. */
  predicate FirstEnough(coflows: seq<CoflowView>, reports: seq<Report>, k: nat) {
    k <= |reports| && Enough(coflows, reports[..k]) && forall j :: 0 <= j < k ==> !Enough(coflows, reports[..j])
  }

  /** Every flow of every coflow is named by some report. */
  predicate AllNamed(coflows: seq<CoflowView>, reports: seq<Report>) {
    forall i, f :: 0 <= i < |coflows| && f in coflows[i].flows ==> Reported(reports, coflows[i].coflowID, f)
  }

  /** The run returns while some flow has not ended, if and only if the first reports that are enough
      leave some flow unnamed. */
  lemma ReturnsEarlyIff(s: State, ticks: seq<Tick>)
    requires Initial(s) && Distinct(s)
    ensures var o := Scheduled(s, ticks);
            (o.done && !(forall i :: 0 <= i < |o.state.coflows| ==> AllEnded(o.state.coflows[i])))
            <==> (exists k: nat :: FirstEnough(s.coflows, AllReports(ticks), k)
                                   && !AllNamed(s.coflows, AllReports(ticks)[..k]))
  {
    var o, all := Scheduled(s, ticks), AllReports(ticks);
    ReturnsIffEnough(s, ticks);
    InitialTracked(s);
    ScheduledTracks(s, ticks);
    ScheduledSame(s, ticks);
    assert o.state.handled == all[..|o.state.handled|];
    EndedIffNamed(s, o.state);
    forall k: nat | FirstEnough(s.coflows, all, k)
      ensures o.done && k == |o.state.handled|
    {
      CreditPrefix(s.coflows, |s.coflows|, all[..k], all);
    }
  }

  lemma ScheduledSame(s: State, ticks: seq<Tick>)
    requires Initial(s)
    ensures SameFlows(s.coflows, Scheduled(s, ticks).state.coflows)
  {
    InitialAccounted(s);
    ScheduledDecided(s.coflows, s, ticks);
  }

  lemma EndedIffNamed(s: State, t: State)
    requires Tracked(t) && SameFlows(s.coflows, t.coflows)
    ensures (forall i :: 0 <= i < |t.coflows| ==> AllEnded(t.coflows[i])) <==> AllNamed(s.coflows, t.handled)
  {
    forall i, f | 0 <= i < |t.coflows|
      ensures f in s.coflows[i].flows <==> f in t.coflows[i].flows
    {
      assert f in s.coflows[i].flows.Keys <==> f in t.coflows[i].flows.Keys;
    }
    if forall i :: 0 <= i < |t.coflows| ==> AllEnded(t.coflows[i]) {
      forall i, f | 0 <= i < |s.coflows| && f in s.coflows[i].flows
        ensures Reported(t.handled, s.coflows[i].coflowID, f)
      {
        assert AllEnded(t.coflows[i]) && f in t.coflows[i].flows;
      }
    }
    if AllNamed(s.coflows, t.handled) {
      forall i, f | 0 <= i < |t.coflows| && f in t.coflows[i].flows
        ensures t.coflows[i].flows[f].ended
      {
        assert f in s.coflows[i].flows;
      }
    }
  }

  /** Tracking goes on whatever is reported. */
  lemma {:induction false} HandleAllTracks(s: State, reports: seq<Report>)
    requires Tracked(s)
    ensures Tracked(HandleAll(s, reports).state)
    decreases |reports|
  {
    if reports != [] {
      HandleTracks(s, reports[0]);
      if !Ends(s, reports[0]) {
        HandleAllTracks(Handle(s, reports[0]), reports[1..]);
      }
    }
  }

  lemma {:induction false} ScheduledTracks(s: State, ticks: seq<Tick>)
    requires Sane(s) && Tracked(s)
    ensures Tracked(Scheduled(s, ticks).state)
    decreases |ticks|
  {
    if ticks != [] {
      var sent := BeforeReports(s, ticks[0]);
      ProgressBeforeReports(s, ticks[0]);
      ProgressTracks(s, sent);
      HandleAllTracks(sent, ticks[0].reports);
      var one := HandleAll(sent, ticks[0].reports);
      if !one.done {
        ScheduledTracks(one.state, ticks[1..]);
      }
    }
  }

  /** With coflows of distinct ids and each flow reported at most once, the run returns exactly when
      every coflow has flows and all flows of all coflows have ended; and a flow has ended exactly if
      it was reported. */
  lemma ReturnsWhenAllEnded(s: State, ticks: seq<Tick>)
    requires Initial(s) && Distinct(s) && AtMostOnce(AllReports(ticks))
    ensures Scheduled(s, ticks).done <==> Finished(Scheduled(s, ticks).state)
    ensures var r := Scheduled(s, ticks).state;
            forall i, f :: 0 <= i < |r.coflows| && f in r.coflows[i].flows ==>
              (r.coflows[i].flows[f].ended <==> Reported(r.handled, r.coflows[i].coflowID, f))
  {
    ReturnsIffEnough(s, ticks);
    OncePrefix(Scheduled(s, ticks).state.handled, AllReports(ticks));
    InitialTracked(s);
    ScheduledIff(s, ticks);
  }

  lemma TwiceIsEnough(coflows: seq<CoflowView>, r: Report)
    requires |coflows| == 1 && |coflows[0].flows| == 2
    requires coflows[0].coflowID == r.coflowID && r.flowID in coflows[0].flows
    ensures Enough(coflows, [r, r])
  {
    assert [r, r][..1] == [r] && [r][..0] == [];
    assert Target(coflows, r.coflowID) == 0;
    assert Named(coflows, 0, [r]) == 1 && Named(coflows, 0, [r, r]) == 2;
    assert Credit(coflows, 0, [r, r]) == 0;
  }

  lemma OneTick(tick: Tick)
    ensures AllReports([tick]) == tick.reports
  {
    assert [tick][1..] == [] && tick.reports + [] == tick.reports;
  }

  /** A flow reported twice can end the run while another flow, which has been sent, is running. */
  lemma RepeatedReportEndsEarly() returns (s: State, ticks: seq<Tick>)
    ensures Initial(s) && Distinct(s)
    ensures var o := Scheduled(s, ticks);
            && o.done && |o.state.coflows| == 1 && o.state.coflows[0].state == RUNNINGED
            && Times(o.state.sent, 7, 2) == 1
            && 2 in o.state.coflows[0].flows && !o.state.coflows[0].flows[2].ended
  {
    var one, two := Flow(1, 0, 0, 1.0, 0.0, false, 0), Flow(2, 0, 0, 1.0, 0.0, false, 0);
    var c := CoflowView(7, 0.0, UNREGISTER, map[1 := one, 2 := two], 0, 0);
    s := State([c], 0, 0, [], []);
    var report := Report(7, 1, 3);
    var tick := Tick(0.0, [report, report]);
    ticks := [tick];
    assert c.flows.Keys == {1, 2} && |c.flows| == |c.flows.Keys|;
    OneTick(tick);
    TwiceIsEnough(s.coflows, report);
    ReturnsIffEnough(s, ticks);
    ScheduledSettles(s, ticks);
    RegistersAtOnce(s, tick);
    EachFlowSentOnce(s, ticks, 7, 2);
    var o := Scheduled(s, ticks);
    assert forall k :: 0 <= k < |o.state.handled| ==> o.state.handled[k] == tick.reports[k];
    UnreportedRuns(s, ticks, 0, 2);
    assert Target(o.state.coflows, 7) == 0;
  }

  /** A flow that no handled report names has not ended. */
  lemma UnreportedRuns(s: State, ticks: seq<Tick>, i: nat, f: int)
    requires Initial(s) && Distinct(s) && i < |s.coflows| && f in s.coflows[i].flows
    requires !Reported(Scheduled(s, ticks).state.handled, s.coflows[i].coflowID, f)
    ensures var r := Scheduled(s, ticks).state;
            && |r.coflows| == |s.coflows| && r.coflows[i].coflowID == s.coflows[i].coflowID
            && f in r.coflows[i].flows && !r.coflows[i].flows[f].ended
  {
    InitialTracked(s);
    ScheduledTracks(s, ticks);
    ScheduledSame(s, ticks);
    assert f in Scheduled(s, ticks).state.coflows[i].flows.Keys;
  }

  /** A single coflow that is due is registered by the first iteration. */
  lemma RegistersAtOnce(s: State, tick: Tick)
    requires Initial(s) && |s.coflows| == 1 && s.coflows[0].startTime <= tick.time
    ensures Scheduled(s, [tick]).state.registerIndex == 1
  {
    var next := With(s, 0, s.coflows[0].(state := REGISTED)).(registerIndex := 1);
    assert Registered(s, tick.time) == Registered(next, tick.time) == next;
    IteratedSettles(s, tick);
    assert [tick][1..] == [];
  }
}
