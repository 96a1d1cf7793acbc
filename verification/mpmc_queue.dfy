/** The bounded multi-producer multi-consumer queue as a state machine.

  Every shared access of `enqueue` and `dequeue` is one step, and the steps of any number of
  threads interleave freely. Positions are unbounded tickets. */
module MpmcQueue {

  import opened Wrappers

  datatype Cell<T> = Cell(sequence: nat, data: Option<T>)

  /** Where a thread is. The last five are what it holds when a call has returned. */
  datatype Pc<T> =
    | EnqPos(item: T, pos: nat)                    // has loaded enqueue_pos_
    | EnqSeq(item: T, pos: nat, seqSeen: nat)      // has loaded the cell's sequence
    | EnqClaimed(item: T, pos: nat)                // has advanced enqueue_pos_
    | EnqWritten(pos: nat)                         // has moved the item into the cell
    | DeqPos(pos: nat)
    | DeqSeq(pos: nat, seqSeen: nat)
    | DeqClaimed(pos: nat)
    | DeqTaken(pos: nat, item: T)                  // has moved the item out of the cell
    | Idle
    | Accepted
    | Refused(item: T)                             // enqueue returned false: the item was not moved
    | Delivered(item: T)
    | FoundEmpty

  /** What happened so far: the item and thread of every claimed enqueue ticket, the thread of every
      claimed dequeue ticket, the items taken, and the ticket that each cell is currently for. */
  datatype History<T> = History(items: seq<T>, producers: seq<nat>, consumers: seq<nat>,
                                taken: map<nat, T>, current: seq<nat>)

  datatype State<T> = State(cells: seq<Cell<T>>, enqueuePos: nat, dequeuePos: nat,
                            threads: seq<Pc<T>>, history: History<T>)

  datatype Action<T> =
    | BeginEnqueue(item: T)
    | Retry
    | BeginDequeue
    | LoadSequence
    | CompareExchange(spurious: bool)
    | WriteCell
    | Publish
    | ReadCell
    | Release
    | Return

  /** `ticket & buffer_mask_`: the ticket modulo the capacity. */
  function Slot(n: nat, ticket: nat): (c: nat)
    requires n > 0
    ensures c < n
  {
    if ticket < n then ticket else Slot(n, ticket - n)
  }

  function At<T>(s: State<T>, ticket: nat): Cell<T>
    requires s.cells != []
  {
    s.cells[Slot(|s.cells|, ticket)]
  }

  /// ## Steps

  predicate Enabled<T>(s: State<T>, i: nat, a: Action<T>) {
    && s.cells != [] && i < |s.threads|
    && var pc := s.threads[i];
       match a
       case BeginEnqueue(_) => pc.Idle?
       case Retry => pc.Refused?
       case BeginDequeue => pc.Idle?
       case LoadSequence => pc.EnqPos? || pc.DeqPos?
       case CompareExchange(_) => pc.EnqSeq? || pc.DeqSeq?
       case WriteCell => pc.EnqClaimed?
       case Publish => pc.EnqWritten?
       case ReadCell => pc.DeqClaimed? && At(s, pc.pos).data.Some?
       case Release => pc.DeqTaken?
       case Return => pc.Accepted? || pc.Refused? || pc.Delivered? || pc.FoundEmpty?
  }

  function Moved<T>(s: State<T>, i: nat, pc: Pc<T>): State<T>
    requires i < |s.threads|
  {
    s.(threads := s.threads[i := pc])
  }

  /** Acts on the loaded sequence: claims the position, gives up, or loads the position again. */
  function Exchange<T>(s: State<T>, i: nat, spurious: bool): State<T>
    requires Enabled(s, i, CompareExchange(spurious))
  {
    match s.threads[i]
    case EnqSeq(item, pos, seqSeen) =>
      if seqSeen == pos then
        if s.enqueuePos == pos && !spurious then
          Moved(s, i, EnqClaimed(item, pos))
          .(enqueuePos := pos + 1,
            history := s.history.(items := s.history.items + [item], producers := s.history.producers + [i]))
        else Moved(s, i, EnqPos(item, s.enqueuePos))
      else if seqSeen < pos then Moved(s, i, Refused(item))
      else Moved(s, i, EnqPos(item, s.enqueuePos))
    case DeqSeq(pos, seqSeen) =>
      if seqSeen == pos + 1 then
        if s.dequeuePos == pos && !spurious then
          Moved(s, i, DeqClaimed(pos))
          .(dequeuePos := pos + 1, history := s.history.(consumers := s.history.consumers + [i]))
        else Moved(s, i, DeqPos(s.dequeuePos))
      else if seqSeen < pos + 1 then Moved(s, i, FoundEmpty)
      else Moved(s, i, DeqPos(s.dequeuePos))
  }

  function Do<T>(s: State<T>, i: nat, a: Action<T>): State<T>
    requires Enabled(s, i, a)
  {
    var n := |s.cells|;
    var pc := s.threads[i];
    match a
    case BeginEnqueue(item) => Moved(s, i, EnqPos(item, s.enqueuePos))
    case Retry => Moved(s, i, EnqPos(pc.item, s.enqueuePos))
    case BeginDequeue => Moved(s, i, DeqPos(s.dequeuePos))
    case LoadSequence =>
      var seen := At(s, pc.pos).sequence;
      Moved(s, i, if pc.EnqPos? then EnqSeq(pc.item, pc.pos, seen) else DeqSeq(pc.pos, seen))
    case CompareExchange(spurious) => Exchange(s, i, spurious)
    case WriteCell =>
      var c := Slot(n, pc.pos);
      Moved(s, i, EnqWritten(pc.pos)).(cells := s.cells[c := s.cells[c].(data := Some(pc.item))])
    case Publish =>
      var c := Slot(n, pc.pos);
      Moved(s, i, Accepted).(cells := s.cells[c := s.cells[c].(sequence := pc.pos + 1)])
    case ReadCell =>
      var c := Slot(n, pc.pos);
      var item := s.cells[c].data.value;
      Moved(s, i, DeqTaken(pc.pos, item))
      .(cells := s.cells[c := s.cells[c].(data := None)],
        history := s.history.(taken := s.history.taken[pc.pos := item]))
    case Release =>
      var c := Slot(n, pc.pos);
      Moved(s, i, Delivered(pc.item))
      .(cells := s.cells[c := s.cells[c].(sequence := pc.pos + n)],
        history := if c < |s.history.current|
                   then s.history.(current := s.history.current[c := pc.pos + n]) else s.history)
    case Return => Moved(s, i, Idle)
  }

  /** The constructor: cell `c` is free for ticket `c`. */
  predicate Init<T>(s: State<T>) {
    var n := |s.cells|;
    && n >= 2
    && (forall c :: 0 <= c < n ==> s.cells[c] == Cell(c, None))
    && s.enqueuePos == 0 && s.dequeuePos == 0
    && (forall i :: 0 <= i < |s.threads| ==> s.threads[i].Idle?)
    && s.history == History([], [], [], map[], seq(n, c => c))
  }

  /// ## The invariant

  predicate HoldsEnqueue<T>(pc: Pc<T>, t: nat) {
    (pc.EnqClaimed? || pc.EnqWritten?) && pc.pos == t
  }

  predicate HoldsDequeue<T>(pc: Pc<T>, t: nat) {
    (pc.DeqClaimed? || pc.DeqTaken?) && pc.pos == t
  }

  ghost predicate Published<T>(s: State<T>, t: nat)
    requires Sized(s)
  {
    var c := Slot(|s.cells|, t);
    t < s.history.current[c] || (t == s.history.current[c] && s.cells[c].sequence == t + 1)
  }

  ghost predicate Released<T>(s: State<T>, t: nat)
    requires Sized(s)
  {
    t < s.history.current[Slot(|s.cells|, t)]
  }

  ghost predicate Sized<T>(s: State<T>) {
    && |s.cells| >= 2 && |s.history.current| == |s.cells|
    && |s.history.items| == s.enqueuePos && |s.history.producers| == s.enqueuePos
    && |s.history.consumers| == s.dequeuePos
    && s.dequeuePos <= s.enqueuePos
  }

  /** A cell is free for its current ticket or holds the published item of it. */
  ghost predicate CellInv<T>(s: State<T>, c: nat)
    requires Sized(s) && c < |s.cells|
  {
    var n, t, cell := |s.cells|, s.history.current[c], s.cells[c];
    && Slot(n, t) == c
    && (cell.sequence == t || cell.sequence == t + 1)
    && t < s.dequeuePos + n && s.enqueuePos <= t + n
    && if cell.sequence == t then
         // free: not yet dequeued, and being written if it is claimed
         && s.dequeuePos <= t
         && (t < s.enqueuePos ==>
               s.history.producers[t] < |s.threads| && HoldsEnqueue(s.threads[s.history.producers[t]], t))
       else
         // published: being read if it is claimed, full otherwise
         && t < s.enqueuePos
         && s.dequeuePos <= t + n
         && (t < s.dequeuePos ==>
               s.history.consumers[t] < |s.threads| && HoldsDequeue(s.threads[s.history.consumers[t]], t))
         && (t >= s.dequeuePos ==> cell.data == Some(s.history.items[t]))
  }

  ghost predicate ThreadInv<T>(s: State<T>, i: nat)
    requires Sized(s) && i < |s.threads|
  {
    var n := |s.cells|;
    match s.threads[i]
    case EnqPos(_, pos) => pos <= s.enqueuePos
    case EnqSeq(_, pos, seen) => pos <= s.enqueuePos && seen <= At(s, pos).sequence
    case EnqClaimed(item, pos) =>
      && pos < s.enqueuePos && s.history.producers[pos] == i && s.history.items[pos] == item
      && s.history.current[Slot(n, pos)] == pos && At(s, pos).sequence == pos
    case EnqWritten(pos) =>
      && pos < s.enqueuePos && s.history.producers[pos] == i
      && s.history.current[Slot(n, pos)] == pos && At(s, pos) == Cell(pos, Some(s.history.items[pos]))
    case DeqPos(pos) => pos <= s.dequeuePos
    case DeqSeq(pos, seen) => pos <= s.dequeuePos && seen <= At(s, pos).sequence
    case DeqClaimed(pos) =>
      && pos < s.dequeuePos && s.history.consumers[pos] == i && pos !in s.history.taken
      && s.history.current[Slot(n, pos)] == pos && At(s, pos) == Cell(pos + 1, Some(s.history.items[pos]))
    case DeqTaken(pos, item) =>
      && pos < s.dequeuePos && s.history.consumers[pos] == i && item == s.history.items[pos]
      && s.history.current[Slot(n, pos)] == pos && At(s, pos).sequence == pos + 1
    case _ => true
  }

  /** A claimed dequeue ticket has been served with its own item or is about to be. */
  ghost predicate TicketInv<T>(s: State<T>, t: nat)
    requires Sized(s)
  {
    && (t in s.history.taken ==> t < s.dequeuePos && s.history.taken[t] == s.history.items[t])
    && (t < s.dequeuePos && t !in s.history.taken ==>
          s.history.consumers[t] < |s.threads| && s.threads[s.history.consumers[t]] == DeqClaimed(t))
  }

  ghost predicate Inv<T>(s: State<T>) {
    && Sized(s)
    && (forall c :: 0 <= c < |s.cells| ==> CellInv(s, c))
    && (forall i :: 0 <= i < |s.threads| ==> ThreadInv(s, i))
    && (forall t: nat :: TicketInv(s, t))
  }

  lemma InitInv<T>(s: State<T>)
    requires Init(s)
    ensures Inv(s)
  {
    forall c | 0 <= c < |s.cells|
      ensures CellInv(s, c)
    {
      assert Slot(|s.cells|, c) == c;
    }
  }

  /// ## Arithmetic of slots

  lemma {:induction false} SlotIsRemainder(n: nat, t: nat)
    requires n > 0
    ensures Slot(n, t) == t % n
  {
    if t >= n {
      SlotIsRemainder(n, t - n);
      RemainderStep(n, t);
    }
  }

  lemma RemainderStep(n: nat, t: nat)
    requires n > 0 && t >= n
    ensures t % n == (t - n) % n
  {
    var q, q' := t / n, (t - n) / n;
    var r, r' := t % n, (t - n) % n;
    assert t == n * q + r && t - n == n * q' + r';
    assert n * (q - 1 - q') == r' - r;
    Multiples(n, q - 1 - q');
  }

  lemma Multiples(n: int, k: int)
    requires n > 0
    ensures k >= 1 ==> n * k >= n
    ensures k <= -1 ==> n * k <= -n
    ensures k == 0 ==> n * k == 0
  {
    if k >= 1 {
      assert n * k == n + n * (k - 1);
    } else if k <= -1 {
      assert n * k == -n + n * (k + 1);
    }
  }

  /** Two tickets for the same cell are at least one lap apart. */
  lemma {:induction false} SlotsApart(n: nat, a: nat, b: nat)
    requires n > 0 && Slot(n, a) == Slot(n, b) && a < b
    ensures a + n <= b
  {
    if a >= n {
      SlotsApart(n, a - n, b - n);
    }
  }

  lemma SlotAhead(n: nat, a: nat)
    requires n > 0
    ensures Slot(n, a + n) == Slot(n, a)
  {
  }

  /// ## Every step keeps the invariant

  /** Steps that touch only the thread's own position. */
  lemma MovedKeeps<T>(s: State<T>, i: nat, pc: Pc<T>)
    requires Inv(s) && i < |s.threads|
    requires forall t: nat :: !HoldsEnqueue(s.threads[i], t) && !HoldsDequeue(s.threads[i], t)
    requires ThreadInv(Moved(s, i, pc), i)
    ensures Inv(Moved(s, i, pc))
  {
    var s' := Moved(s, i, pc);
    forall c | 0 <= c < |s.cells| ensures CellInv(s', c) { assert CellInv(s, c); }
    forall j | 0 <= j < |s.threads| ensures ThreadInv(s', j) { assert ThreadInv(s, j); }
    forall t: nat ensures TicketInv(s', t) {
      assert TicketInv(s, t);
      assert !HoldsDequeue(s.threads[i], t);
    }
  }

  lemma LoadKeeps<T>(s: State<T>, i: nat)
    requires Inv(s) && Enabled(s, i, LoadSequence)
    ensures Inv(Do(s, i, LoadSequence))
  {
    var pc := s.threads[i];
    assert ThreadInv(s, i);
    var seen := At(s, pc.pos).sequence;
    MovedKeeps(s, i, if pc.EnqPos? then EnqSeq(pc.item, pc.pos, seen) else DeqSeq(pc.pos, seen));
  }

  /** A sequence equal to the position cannot have moved on while the position is unclaimed. */
  lemma StillFree<T>(s: State<T>, pos: nat)
    requires Inv(s) && pos == s.enqueuePos && pos <= At(s, pos).sequence
    ensures s.history.current[Slot(|s.cells|, pos)] == pos && At(s, pos).sequence == pos
  {
    var n := |s.cells|;
    var c := Slot(n, pos);
    var t := s.history.current[c];
    assert CellInv(s, c);
    if t < pos {
      SlotsApart(n, t, pos);
    } else if pos < t {
      SlotsApart(n, pos, t);
    }
  }

  lemma StillFull<T>(s: State<T>, pos: nat)
    requires Inv(s) && pos == s.dequeuePos && pos + 1 <= At(s, pos).sequence
    ensures s.history.current[Slot(|s.cells|, pos)] == pos && At(s, pos).sequence == pos + 1
  {
    var n := |s.cells|;
    var c := Slot(n, pos);
    var t := s.history.current[c];
    assert CellInv(s, c);
    if pos < t {
      SlotsApart(n, pos, t);
    }
  }

  lemma ClaimEnqueueKeeps<T>(s: State<T>, i: nat)
    requires Inv(s) && Enabled(s, i, CompareExchange(false))
    requires s.threads[i].EnqSeq? && s.threads[i].seqSeen == s.threads[i].pos == s.enqueuePos
    ensures Inv(Do(s, i, CompareExchange(false)))
  {
    var s' := Do(s, i, CompareExchange(false));
    var n, pos := |s.cells|, s.enqueuePos;
    assert ThreadInv(s, i);
    StillFree(s, pos);
    forall c | 0 <= c < n
      ensures CellInv(s', c)
    {
      assert CellInv(s, c);
      var t := s.history.current[c];
      SlotAhead(n, t);  // the next lap of this cell would be the claimed one
    }
    forall j | 0 <= j < |s.threads| ensures ThreadInv(s', j) { assert ThreadInv(s, j); }
    forall t: nat ensures TicketInv(s', t) { assert TicketInv(s, t); }
  }

  lemma ClaimDequeueKeeps<T>(s: State<T>, i: nat)
    requires Inv(s) && Enabled(s, i, CompareExchange(false))
    requires s.threads[i].DeqSeq? && s.threads[i].seqSeen == s.threads[i].pos + 1 && s.threads[i].pos == s.dequeuePos
    ensures Inv(Do(s, i, CompareExchange(false)))
  {
    var s' := Do(s, i, CompareExchange(false));
    var n, pos := |s.cells|, s.dequeuePos;
    assert ThreadInv(s, i);
    StillFull(s, pos);
    assert CellInv(s, Slot(n, pos));
    assert TicketInv(s, pos);
    forall c | 0 <= c < n
      ensures CellInv(s', c)
    {
      assert CellInv(s, c);
      var t := s.history.current[c];
      if t == s.dequeuePos {
        assert c == Slot(n, pos);
      }
    }
    forall j | 0 <= j < |s.threads| ensures ThreadInv(s', j) { assert ThreadInv(s, j); }
    forall t: nat ensures TicketInv(s', t) { assert TicketInv(s, t); }
  }

  lemma ExchangeKeeps<T>(s: State<T>, i: nat, spurious: bool)
    requires Inv(s) && Enabled(s, i, CompareExchange(spurious))
    ensures Inv(Do(s, i, CompareExchange(spurious)))
  {
    var pc := s.threads[i];
    assert ThreadInv(s, i);
    if pc.EnqSeq? {
      if pc.seqSeen == pc.pos == s.enqueuePos && !spurious {
        ClaimEnqueueKeeps(s, i);
      } else if pc.seqSeen < pc.pos {
        MovedKeeps(s, i, Refused(pc.item));
      } else {
        MovedKeeps(s, i, EnqPos(pc.item, s.enqueuePos));
      }
    } else {
      if pc.seqSeen == pc.pos + 1 && pc.pos == s.dequeuePos && !spurious {
        ClaimDequeueKeeps(s, i);
      } else if pc.seqSeen < pc.pos + 1 {
        MovedKeeps(s, i, FoundEmpty);
      } else {
        MovedKeeps(s, i, DeqPos(s.dequeuePos));
      }
    }
  }

  lemma WriteKeeps<T>(s: State<T>, i: nat)
    requires Inv(s) && Enabled(s, i, WriteCell)
    ensures Inv(Do(s, i, WriteCell))
  {
    var s' := Do(s, i, WriteCell);
    var n, pos := |s.cells|, s.threads[i].pos;
    assert ThreadInv(s, i);
    forall c | 0 <= c < n ensures CellInv(s', c) { assert CellInv(s, c); }
    forall j | 0 <= j < |s.threads| ensures ThreadInv(s', j) { assert ThreadInv(s, j); }
    forall t: nat ensures TicketInv(s', t) { assert TicketInv(s, t); }
  }

  lemma PublishKeeps<T>(s: State<T>, i: nat)
    requires Inv(s) && Enabled(s, i, Publish)
    ensures Inv(Do(s, i, Publish))
  {
    var s' := Do(s, i, Publish);
    var n, pos := |s.cells|, s.threads[i].pos;
    assert ThreadInv(s, i);
    forall c | 0 <= c < n ensures CellInv(s', c) { assert CellInv(s, c); }
    forall j | 0 <= j < |s.threads| ensures ThreadInv(s', j) { assert ThreadInv(s, j); }
    forall t: nat ensures TicketInv(s', t) { assert TicketInv(s, t); }
  }

  lemma ReadKeeps<T>(s: State<T>, i: nat)
    requires Inv(s) && Enabled(s, i, ReadCell)
    ensures Inv(Do(s, i, ReadCell))
  {
    var s' := Do(s, i, ReadCell);
    var n, pos := |s.cells|, s.threads[i].pos;
    assert ThreadInv(s, i);
    forall c | 0 <= c < n ensures CellInv(s', c) { assert CellInv(s, c); }
    forall j | 0 <= j < |s.threads| ensures ThreadInv(s', j) { assert ThreadInv(s, j); }
    forall t: nat ensures TicketInv(s', t) { assert TicketInv(s, t); }
  }

  lemma ReleaseKeepsCells<T>(s: State<T>, i: nat)
    requires Inv(s) && Enabled(s, i, Release)
    ensures var s' := Do(s, i, Release); Sized(s') && forall c :: 0 <= c < |s'.cells| ==> CellInv(s', c)
  {
    var s' := Do(s, i, Release);
    assert ThreadInv(s, i);
    SlotAhead(|s.cells|, s.threads[i].pos);
    forall c | 0 <= c < |s.cells| ensures CellInv(s', c) { assert CellInv(s, c); }
  }

  lemma ReleaseKeeps<T>(s: State<T>, i: nat)
    requires Inv(s) && Enabled(s, i, Release)
    ensures Inv(Do(s, i, Release))
  {
    var s' := Do(s, i, Release);
    ReleaseKeepsCells(s, i);
    assert ThreadInv(s, i);
    forall j | 0 <= j < |s.threads| ensures ThreadInv(s', j) { assert ThreadInv(s, j); }
    forall t: nat ensures TicketInv(s', t) { assert TicketInv(s, t); }
  }

  lemma StepKeeps<T>(s: State<T>, i: nat, a: Action<T>)
    requires Inv(s) && Enabled(s, i, a)
    ensures Inv(Do(s, i, a))
  {
    match a
    case BeginEnqueue(item) => MovedKeeps(s, i, EnqPos(item, s.enqueuePos));
    case Retry => MovedKeeps(s, i, EnqPos(s.threads[i].item, s.enqueuePos));
    case BeginDequeue => MovedKeeps(s, i, DeqPos(s.dequeuePos));
    case LoadSequence => LoadKeeps(s, i);
    case CompareExchange(spurious) => ExchangeKeeps(s, i, spurious);
    case WriteCell => WriteKeeps(s, i);
    case Publish => PublishKeeps(s, i);
    case ReadCell => ReadKeeps(s, i);
    case Release => ReleaseKeeps(s, i);
    case Return => MovedKeeps(s, i, Idle);
  }

  /// ## What holds in every reachable state

  datatype Step<T> = Step(thread: nat, action: Action<T>)

  /** A run: an initial state and the states that the steps lead through, in any interleaving. */
  predicate Run<T(==)>(trace: seq<State<T>>, steps: seq<Step<T>>) {
    && |trace| == |steps| + 1
    && Init(trace[0])
    && forall k :: 0 <= k < |steps| ==>
         && Enabled(trace[k], steps[k].thread, steps[k].action)
         && trace[k + 1] == Do(trace[k], steps[k].thread, steps[k].action)
  }

  lemma {:induction false} RunInv<T>(trace: seq<State<T>>, steps: seq<Step<T>>, k: nat)
    requires Run(trace, steps) && k < |trace|
    ensures Inv(trace[k])
  {
    if k == 0 {
      InitInv(trace[0]);
    } else {
      RunInv(trace, steps, k - 1);
      StepKeeps(trace[k - 1], steps[k - 1].thread, steps[k - 1].action);
    }
  }

  /** The positions never cross and are never more than one lap apart. */
  lemma PositionsBounded<T>(s: State<T>)
    requires Inv(s)
    ensures s.dequeuePos <= s.enqueuePos <= s.dequeuePos + |s.cells|
  {
    var n := |s.cells|;
    var c := Slot(n, s.dequeuePos);
    assert CellInv(s, c);
    if s.history.current[c] > s.dequeuePos {
      SlotsApart(n, s.dequeuePos, s.history.current[c]);
    }
  }

  /** First in, first out: the k-th dequeue ticket is served with the item of the k-th enqueue ticket. */
  lemma TicketsMatch<T>(trace: seq<State<T>>, steps: seq<Step<T>>, n: nat, k: nat)
    requires Run(trace, steps) && n < |trace|
    ensures k in trace[n].history.taken ==>
              k < |trace[n].history.items| && trace[n].history.taken[k] == trace[n].history.items[k]
    ensures forall i :: 0 <= i < |trace[n].threads| && trace[n].threads[i].DeqTaken? && trace[n].threads[i].pos == k ==>
              k < |trace[n].history.items| && trace[n].threads[i].item == trace[n].history.items[k]
  {
    RunInv(trace, steps, n);
    assert TicketInv(trace[n], k);
    forall i | 0 <= i < |trace[n].threads| && trace[n].threads[i].DeqTaken? && trace[n].threads[i].pos == k
      ensures k < |trace[n].history.items| && trace[n].threads[i].item == trace[n].history.items[k]
    {
      assert ThreadInv(trace[n], i);
    }
  }

  /** What is recorded stays: tickets keep their items, and no ticket is served twice. */
  lemma HistoryGrows<T>(s: State<T>, i: nat, a: Action<T>)
    requires Inv(s) && Enabled(s, i, a)
    ensures s.history.items <= Do(s, i, a).history.items
    ensures s.history.consumers <= Do(s, i, a).history.consumers
    ensures forall t :: t in s.history.taken ==>
              t in Do(s, i, a).history.taken && Do(s, i, a).history.taken[t] == s.history.taken[t]
    ensures a.ReadCell? ==> s.threads[i].pos !in s.history.taken
  {
    assert ThreadInv(s, i);
  }

  lemma {:induction false} RunHistoryGrows<T>(trace: seq<State<T>>, steps: seq<Step<T>>, m: nat, n: nat)
    requires Run(trace, steps) && m <= n < |trace|
    ensures trace[m].history.items <= trace[n].history.items
    ensures forall t :: t in trace[m].history.taken ==>
              t in trace[n].history.taken && trace[n].history.taken[t] == trace[m].history.taken[t]
  {
    if m < n {
      RunHistoryGrows(trace, steps, m, n - 1);
      RunInv(trace, steps, n - 1);
      HistoryGrows(trace[n - 1], steps[n - 1].thread, steps[n - 1].action);
    }
  }

  /** A cell is written only when every earlier item that was put in it has been taken. */
  lemma NothingOverwritten<T>(s: State<T>, i: nat, t: nat)
    requires Inv(s) && Enabled(s, i, WriteCell)
    requires t < s.threads[i].pos && Slot(|s.cells|, t) == Slot(|s.cells|, s.threads[i].pos)
    ensures t in s.history.taken
  {
    var pos := s.threads[i].pos;
    var n := |s.cells|;
    assert ThreadInv(s, i);
    assert CellInv(s, Slot(n, pos));
    SlotsApart(n, t, pos);
    assert TicketInv(s, t);
    var reader := s.history.consumers[t];
    if reader < |s.threads| {
      assert ThreadInv(s, reader);
    }
  }

  /** Two threads never work on the same cell: one writer or one reader at a time. */
  lemma OneThreadPerCell<T>(s: State<T>, i: nat, j: nat, a: nat, b: nat)
    requires Inv(s) && i < |s.threads| && j < |s.threads| && i != j
    requires HoldsEnqueue(s.threads[i], a) || HoldsDequeue(s.threads[i], a)
    requires HoldsEnqueue(s.threads[j], b) || HoldsDequeue(s.threads[j], b)
    ensures Slot(|s.cells|, a) != Slot(|s.cells|, b)
  {
    assert ThreadInv(s, i) && ThreadInv(s, j);
  }

  /** `enqueue` gives up only after an instant at which the tail is at the position it tried and
      the item of one lap before has not been released. */
  lemma FullIsFull<T>(s: State<T>, i: nat)
    requires Inv(s) && Enabled(s, i, LoadSequence) && s.threads[i].EnqPos?
    requires At(s, s.threads[i].pos).sequence < s.threads[i].pos
    ensures s.threads[i].pos == s.enqueuePos
    ensures s.enqueuePos >= |s.cells| && !Released(s, s.enqueuePos - |s.cells|)
  {
    var n, pos := |s.cells|, s.threads[i].pos;
    var c := Slot(n, pos);
    assert ThreadInv(s, i) && CellInv(s, c);
    SlotsApart(n, s.history.current[c], pos);
    SlotAhead(n, pos - n);
  }

  /** `dequeue` reports an empty queue only after an instant at which the head is at the position
      it tried and that ticket has not been published. */
  lemma EmptyIsEmpty<T>(s: State<T>, i: nat)
    requires Inv(s) && Enabled(s, i, LoadSequence) && s.threads[i].DeqPos?
    requires At(s, s.threads[i].pos).sequence < s.threads[i].pos + 1
    ensures s.threads[i].pos == s.dequeuePos && !Published(s, s.dequeuePos)
  {
    var n, pos := |s.cells|, s.threads[i].pos;
    var c := Slot(n, pos);
    assert ThreadInv(s, i) && CellInv(s, c);
    if pos < s.dequeuePos {
      if s.history.current[c] < pos {
        SlotsApart(n, s.history.current[c], pos);
      }
    }
  }

  /** The tail is at the position that thread `i` tries, and the item of one lap before is not released. */
  ghost predicate FullFor<T>(s: State<T>, i: nat) {
    && Sized(s) && i < |s.threads| && s.threads[i].EnqPos? && s.threads[i].pos == s.enqueuePos
    && s.enqueuePos >= |s.cells| && !Released(s, s.enqueuePos - |s.cells|)
  }

  /** The head is at the position that thread `i` tries, and its ticket is not published. */
  ghost predicate EmptyFor<T>(s: State<T>, i: nat) {
    && Sized(s) && i < |s.threads| && s.threads[i].DeqPos? && s.threads[i].pos == s.dequeuePos
    && !Published(s, s.dequeuePos)
  }

  /** Where thread `i` loaded the sequence that it holds. */
  lemma {:induction false} LoadedAt<T>(trace: seq<State<T>>, steps: seq<Step<T>>, n: nat, i: nat) returns (m: nat)
    requires Run(trace, steps) && n < |trace| && i < |trace[n].threads|
    requires trace[n].threads[i].EnqSeq? || trace[n].threads[i].DeqSeq?
    ensures m < n && steps[m] == Step(i, LoadSequence) && i < |trace[m].threads| && trace[m].cells != []
    ensures var pc, now := trace[m].threads[i], trace[n].threads[i];
            && pc.pos == now.pos && (pc.EnqPos? <==> now.EnqSeq?) && (pc.DeqPos? <==> now.DeqSeq?)
            && now.seqSeen == At(trace[m], pc.pos).sequence
    ensures forall k :: m < k < n ==> steps[k].thread != i
  {
    m := n - 1;
    assert Enabled(trace[m], steps[m].thread, steps[m].action);
    if steps[m].thread != i {
      m := LoadedAt(trace, steps, n - 1, i);
    }
  }

  /** When a call of `enqueue` or `dequeue` has given up, in any run: it did so after a load of its own at
      an instant at which the queue was full, or empty, for it. */
  lemma {:induction false} RefusedWasFull<T>(trace: seq<State<T>>, steps: seq<Step<T>>, n: nat, i: nat) returns (m: nat)
    requires Run(trace, steps) && n < |trace| && i < |trace[n].threads|
    requires trace[n].threads[i].Refused? || trace[n].threads[i].FoundEmpty?
    ensures m < n && steps[m] == Step(i, LoadSequence)
    ensures if trace[n].threads[i].Refused? then FullFor(trace[m], i) else EmptyFor(trace[m], i)
  {
    var last := n - 1;
    assert Enabled(trace[last], steps[last].thread, steps[last].action);
    if steps[last].thread != i {
      m := RefusedWasFull(trace, steps, last, i);
    } else {
      m := LoadedAt(trace, steps, last, i);
      RunInv(trace, steps, m);
      if trace[n].threads[i].Refused? {
        FullIsFull(trace[m], i);
      } else {
        EmptyIsEmpty(trace[m], i);
      }
    }
  }

  ghost predicate Quiescent<T>(s: State<T>) {
    forall i :: 0 <= i < |s.threads| ==>
      forall t: nat :: !HoldsEnqueue(s.threads[i], t) && !HoldsDequeue(s.threads[i], t)
  }

  /** Conservation: when no call is half way, the cells hold exactly the items enqueued and not yet
      dequeued, each in the cell of its ticket, and every claimed dequeue has got its item. */
  lemma QuiescentContents<T>(s: State<T>, t: nat)
    requires Inv(s) && Quiescent(s)
    ensures s.dequeuePos <= t < s.enqueuePos ==> At(s, t) == Cell(t + 1, Some(s.history.items[t]))
    ensures t < s.dequeuePos <==> t in s.history.taken
  {
    var n := |s.cells|;
    var c := Slot(n, t);
    assert CellInv(s, c) && TicketInv(s, t);
    var cur := s.history.current[c];
    if t < s.dequeuePos && t !in s.history.taken {
      assert HoldsDequeue(s.threads[s.history.consumers[t]], t);
    }
    if s.dequeuePos <= t < s.enqueuePos {
      if cur < t {
        SlotsApart(n, cur, t);
      } else if t < cur {
        SlotsApart(n, t, cur);
      }
    }
  }

  /// ## One call of enqueue, with retries

  /** Thread `i` is inside calls of `enqueue` for `item` that began when `from` tickets were
      claimed: it has claimed no ticket since, or exactly one, for that item. */
  ghost predicate Carries<T>(s: State<T>, i: nat, item: T, from: nat)
    requires Sized(s) && i < |s.threads|
  {
    var pc := s.threads[i];
    from <= s.enqueuePos &&
    if pc.EnqPos? || pc.EnqSeq? || pc.Refused? then
      pc.item == item && forall k :: from <= k < |s.history.producers| ==> s.history.producers[k] != i
    else
      (pc.EnqClaimed? || pc.EnqWritten? || pc.Accepted?) && exists k :: OnlyTicket(s, i, item, from, k)
  }

  ghost predicate OnlyTicket<T>(s: State<T>, i: nat, item: T, from: nat, k: nat)
    requires Sized(s)
  {
    && from <= k < s.enqueuePos && s.history.items[k] == item && s.history.producers[k] == i
    && forall k' :: from <= k' < |s.history.producers| && k' != k ==> s.history.producers[k'] != i
  }

  lemma CarriesStep<T>(s: State<T>, i: nat, item: T, from: nat, j: nat, a: Action<T>)
    requires Inv(s) && i < |s.threads| && Carries(s, i, item, from)
    requires Enabled(s, j, a) && (i == j ==> !a.Return?)
    ensures Sized(Do(s, j, a)) && Carries(Do(s, j, a), i, item, from)
  {
    StepKeeps(s, j, a);
    var s' := Do(s, j, a);
    if k: nat :| OnlyTicket(s, i, item, from, k) {
      assert i != j || !a.CompareExchange?;
      assert OnlyTicket(s', i, item, from, k);
    } else if s'.enqueuePos > s.enqueuePos && i == j {
      assert OnlyTicket(s', i, item, from, s.enqueuePos);
    }
  }

  /** A call that ends accepted, after any number of refusals and retries, has put its item in the
      queue exactly once. */
  lemma {:induction false} PushedOnce<T>(trace: seq<State<T>>, steps: seq<Step<T>>, m: nat, n: nat, i: nat, item: T)
    requires Run(trace, steps) && m < n < |trace|
    requires steps[m] == Step(i, BeginEnqueue(item))
    requires forall k :: m < k < n ==> steps[k] != Step(i, Return)
    ensures Inv(trace[n]) && Sized(trace[m]) && i < |trace[n].threads|
    ensures Carries(trace[n], i, item, trace[m].enqueuePos)
    decreases n
  {
    RunInv(trace, steps, m);
    RunInv(trace, steps, n);
    if n > m + 1 {
      PushedOnce(trace, steps, m, n - 1, i, item);
      CarriesStep(trace[n - 1], i, item, trace[m].enqueuePos, steps[n - 1].thread, steps[n - 1].action);
    }
  }

  /// ## One call of dequeue

  /** Thread `i` is inside a call of `dequeue` that began when `from` items were claimed: it has claimed
      none since, or exactly one ticket, and what it has got is the item of that ticket. */
  ghost predicate Fetches<T>(s: State<T>, i: nat, from: nat)
    requires Sized(s) && i < |s.threads|
  {
    var pc := s.threads[i];
    from <= s.dequeuePos &&
    match pc
    case DeqPos(_) => NoneServed(s, i, from)
    case DeqSeq(_, _) => NoneServed(s, i, from)
    case FoundEmpty => NoneServed(s, i, from)
    case DeqClaimed(pos) => OnlyServed(s, i, from, pos)
    case DeqTaken(pos, item) => OnlyServed(s, i, from, pos) && Got(s, pos, item)
    case Delivered(item) => exists k: nat :: OnlyServed(s, i, from, k) && Got(s, k, item)
    case _ => false
  }

  ghost predicate NoneServed<T>(s: State<T>, i: nat, from: nat) {
    forall k :: from <= k < |s.history.consumers| ==> s.history.consumers[k] != i
  }

  ghost predicate OnlyServed<T>(s: State<T>, i: nat, from: nat, k: nat)
    requires Sized(s)
  {
    && from <= k < s.dequeuePos && s.history.consumers[k] == i
    && forall k' :: from <= k' < |s.history.consumers| && k' != k ==> s.history.consumers[k'] != i
  }

  /** Ticket `k` was served with `item`, which is what was enqueued under it. */
  ghost predicate Got<T>(s: State<T>, k: nat, item: T)
    requires Sized(s)
  {
    k in s.history.taken && s.history.taken[k] == item && k < |s.history.items| && s.history.items[k] == item
  }

  lemma ServedStays<T>(s: State<T>, i: nat, from: nat, j: nat, a: Action<T>)
    requires Inv(s) && Enabled(s, j, a) && i != j
    ensures Sized(Do(s, j, a))
    ensures NoneServed(s, i, from) ==> NoneServed(Do(s, j, a), i, from)
    ensures forall k: nat :: OnlyServed(s, i, from, k) ==> OnlyServed(Do(s, j, a), i, from, k)
  {
    StepKeeps(s, j, a);
    HistoryGrows(s, j, a);
  }

  lemma GotStays<T>(s: State<T>, k: nat, item: T, j: nat, a: Action<T>)
    requires Inv(s) && Enabled(s, j, a) && Got(s, k, item)
    ensures Sized(Do(s, j, a)) && Got(Do(s, j, a), k, item)
  {
    StepKeeps(s, j, a);
    HistoryGrows(s, j, a);
  }

  /** Other threads do not disturb it. */
  lemma FetchesBeside<T>(s: State<T>, i: nat, from: nat, j: nat, a: Action<T>)
    requires Inv(s) && i < |s.threads| && Fetches(s, i, from)
    requires Enabled(s, j, a) && i != j
    ensures Sized(Do(s, j, a)) && Fetches(Do(s, j, a), i, from)
  {
    ServedStays(s, i, from, j, a);
    match s.threads[i]
    case DeqTaken(pos, item) => GotStays(s, pos, item, j, a);
    case Delivered(item) =>
      var k: nat :| OnlyServed(s, i, from, k) && Got(s, k, item);
      GotStays(s, k, item, j, a);
    case _ =>
  }

  lemma FetchesStep<T>(s: State<T>, i: nat, from: nat, a: Action<T>)
    requires Inv(s) && i < |s.threads| && Fetches(s, i, from)
    requires Enabled(s, i, a) && !a.Return?
    ensures Sized(Do(s, i, a)) && Fetches(Do(s, i, a), i, from)
  {
    StepKeeps(s, i, a);
    var s' := Do(s, i, a);
    var pc := s.threads[i];
    assert ThreadInv(s, i) && ThreadInv(s', i);
    if pc.DeqTaken? {
      assert OnlyServed(s', i, from, pc.pos) && Got(s', pc.pos, pc.item);
    }
  }

  lemma FetchesNext<T>(s: State<T>, i: nat, from: nat, step: Step<T>)
    requires Inv(s) && i < |s.threads| && Fetches(s, i, from)
    requires Enabled(s, step.thread, step.action) && step != Step(i, Return)
    ensures Sized(Do(s, step.thread, step.action)) && Fetches(Do(s, step.thread, step.action), i, from)
  {
    if step.thread == i {
      FetchesStep(s, i, from, step.action);
    } else {
      FetchesBeside(s, i, from, step.thread, step.action);
    }
  }

  /** A call of `dequeue` among any others claims at most one ticket, and exactly one if it delivers an
      item, which is the one that was enqueued under that ticket. */
  lemma {:induction false} FetchedOnce<T>(trace: seq<State<T>>, steps: seq<Step<T>>, m: nat, n: nat, i: nat)
    requires Run(trace, steps) && m < n < |trace|
    requires steps[m] == Step(i, BeginDequeue)
    requires forall k :: m < k < n ==> steps[k] != Step(i, Return)
    ensures Inv(trace[n]) && Sized(trace[m]) && i < |trace[n].threads|
    ensures Fetches(trace[n], i, trace[m].dequeuePos)
    decreases n
  {
    RunInv(trace, steps, m);
    RunInv(trace, steps, n);
    if n > m + 1 {
      FetchedOnce(trace, steps, m, n - 1, i);
      FetchesNext(trace[n - 1], i, trace[m].dequeuePos, steps[n - 1]);
    }
  }

  /** The item to be read is always there. */
  lemma ReadIsEnabled<T>(s: State<T>, i: nat)
    requires Inv(s) && i < |s.threads| && s.threads[i].DeqClaimed?
    ensures Enabled(s, i, ReadCell)
  {
    assert ThreadInv(s, i);
  }
}
