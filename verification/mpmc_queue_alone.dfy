/** A call of the queue that runs alone returns, wherever the other threads have stopped. */
module MpmcQueueAlone {
  import opened MpmcQueue

  predicate HasReturned<T>(pc: Pc<T>) {
    pc.Accepted? || pc.Refused? || pc.Delivered? || pc.FoundEmpty?
  }

  /** The next step of a thread that is in a call; a compare-exchange that could succeed does. */
  function OwnAction<T>(pc: Pc<T>): Action<T> {
    match pc
    case EnqPos(_, _) => LoadSequence
    case DeqPos(_) => LoadSequence
    case EnqSeq(_, _, _) => CompareExchange(false)
    case DeqSeq(_, _) => CompareExchange(false)
    case EnqClaimed(_, _) => WriteCell
    case EnqWritten(_) => Publish
    case DeqClaimed(_) => ReadCell
    case DeqTaken(_, _) => Release
    case _ => Return
  }

  /** The call of the thread returns after at most `n` steps of this thread alone. */
  predicate ReturnsWithin<T>(s: State<T>, i: nat, n: nat)
    requires i < |s.threads|
    decreases n
  {
    HasReturned(s.threads[i])
    || (n > 0 && Enabled(s, i, OwnAction(s.threads[i]))
        && ReturnsWithin(Do(s, i, OwnAction(s.threads[i])), i, n - 1))
  }

  lemma {:induction false} ReturnsLater<T>(s: State<T>, i: nat, m: nat, n: nat)
    requires i < |s.threads| && m <= n && ReturnsWithin(s, i, m)
    ensures ReturnsWithin(s, i, n)
    decreases m
  {
    if !HasReturned(s.threads[i]) {
      ReturnsLater(Do(s, i, OwnAction(s.threads[i])), i, m - 1, n - 1);
    }
  }

  /** A claimed ticket is served without waiting. */
  lemma ClaimedReturns<T>(s: State<T>, i: nat)
    requires Inv(s) && i < |s.threads| && (s.threads[i].EnqClaimed? || s.threads[i].DeqClaimed?)
    ensures ReturnsWithin(s, i, 2)
  {
    if s.threads[i].DeqClaimed? {
      ReadIsEnabled(s, i);
    }
    var next := Do(s, i, OwnAction(s.threads[i]));
    assert ReturnsWithin(next, i, 1);
  }

  /** The ticket that the cell for the next enqueue or dequeue is for. */
  lemma CellInReach<T>(s: State<T>, pos: nat)
    requires Inv(s) && s.dequeuePos <= pos <= s.enqueuePos
    ensures var t := s.history.current[Slot(|s.cells|, pos)];
            && (pos == s.dequeuePos ==> t <= pos) && (pos == s.enqueuePos ==> t <= pos)
  {
    var n := |s.cells|;
    var t := s.history.current[Slot(n, pos)];
    assert CellInv(s, Slot(n, pos));
    if t > pos {
      SlotsApart(n, pos, t);
    }
  }

  /** At the next position to enqueue, the sequence is not ahead; neither is it where to dequeue. */
  lemma NotAhead<T>(s: State<T>)
    requires Inv(s)
    ensures At(s, s.enqueuePos).sequence <= s.enqueuePos
    ensures At(s, s.dequeuePos).sequence <= s.dequeuePos + 1
  {
    CellInReach(s, s.enqueuePos);
    CellInReach(s, s.dequeuePos);
    assert CellInv(s, Slot(|s.cells|, s.enqueuePos));
    assert CellInv(s, Slot(|s.cells|, s.dequeuePos));
  }

  /** From a loaded sequence that is not ahead of the next position. */
  lemma FreshSequenceReturns<T>(s: State<T>, i: nat)
    requires Inv(s) && i < |s.threads|
    requires match s.threads[i]
             case EnqSeq(_, pos, seen) => pos == s.enqueuePos && seen <= pos
             case DeqSeq(pos, seen) => pos == s.dequeuePos && seen <= pos + 1
             case _ => false
    ensures ReturnsWithin(s, i, 3)
  {
    var next := Do(s, i, CompareExchange(false));
    StepKeeps(s, i, CompareExchange(false));
    if !HasReturned(next.threads[i]) {
      ClaimedReturns(next, i);
    }
    assert HasReturned(next.threads[i]) ==> ReturnsWithin(next, i, 2);
  }

  /** From the next position. */
  lemma FreshPositionReturns<T>(s: State<T>, i: nat)
    requires Inv(s) && i < |s.threads|
    requires match s.threads[i]
             case EnqPos(_, pos) => pos == s.enqueuePos
             case DeqPos(pos) => pos == s.dequeuePos
             case _ => false
    ensures ReturnsWithin(s, i, 4)
  {
    NotAhead(s);
    StepKeeps(s, i, LoadSequence);
    FreshSequenceReturns(Do(s, i, LoadSequence), i);
  }

  /** A stale position or sequence is given up for the next position. */
  lemma SequenceReturns<T>(s: State<T>, i: nat)
    requires Inv(s) && i < |s.threads| && (s.threads[i].EnqSeq? || s.threads[i].DeqSeq?)
    ensures ReturnsWithin(s, i, 5)
  {
    var next := Do(s, i, CompareExchange(false));
    StepKeeps(s, i, CompareExchange(false));
    if next.threads[i].EnqPos? || next.threads[i].DeqPos? {
      FreshPositionReturns(next, i);
    } else if !HasReturned(next.threads[i]) {
      ClaimedReturns(next, i);
      ReturnsLater(next, i, 2, 4);
    }
    assert HasReturned(next.threads[i]) ==> ReturnsWithin(next, i, 4);
  }

  /** In every state of every run, a call that goes on alone, with no spurious failures, returns after at
      most six steps: however stale its position is, and whatever calls of other threads are unfinished. */
  lemma AloneReturns<T>(s: State<T>, i: nat)
    requires Inv(s) && i < |s.threads| && !s.threads[i].Idle?
    ensures ReturnsWithin(s, i, 6)
  {
    var pc := s.threads[i];
    if pc.EnqPos? || pc.DeqPos? {
      StepKeeps(s, i, LoadSequence);
      SequenceReturns(Do(s, i, LoadSequence), i);
    } else if pc.EnqSeq? || pc.DeqSeq? {
      SequenceReturns(s, i);
      ReturnsLater(s, i, 5, 6);
    } else if pc.EnqClaimed? || pc.DeqClaimed? {
      ClaimedReturns(s, i);
      ReturnsLater(s, i, 2, 6);
    } else if pc.EnqWritten? || pc.DeqTaken? {
      assert ReturnsWithin(Do(s, i, OwnAction(pc)), i, 5);
    }
  }
}
