/** The calls of the queue object, with their loops, as they run when no other thread interferes. Each
  access of an object is a step of the state machine, which goes along as `machine`. */
module MpmcQueueCalls {
  import opened MpmcQueue
  import opened Wrappers

  /// ## The mask

  predicate IsPowerOfTwo(n: nat) {
    n == 1 || (n > 1 && n % 2 == 0 && IsPowerOfTwo(n / 2))
  }

  /** The bitwise conjunction. */
  function And(a: nat, b: nat): nat {
    if a == 0 || b == 0 then 0
    else 2 * And(a / 2, b / 2) + (if a % 2 == 1 && b % 2 == 1 then 1 else 0)
  }

  lemma HalfRemainder(a: nat, m: nat)
    requires m > 0
    ensures a % (2 * m) == 2 * (a / 2 % m) + a % 2
  {
    var q, r := a / 2 / m, a / 2 % m;
    assert a / 2 == m * q + r;
    assert a == (2 * m) * q + (2 * r + a % 2);
    SlotIsRemainder(2 * m, a);
    RemainderOf(q, 2 * m, 2 * r + a % 2);
  }

  lemma {:induction false} RemainderOf(q: nat, m: nat, r: nat)
    requires r < m
    ensures m * q + r >= 0 && (m * q + r) % m == r
    decreases q
  {
    if q > 0 {
      assert m * q + r == m * (q - 1) + r + m;
      RemainderOf(q - 1, m, r);
      RemainderStep(m, m * q + r);
    }
  }

  /** The low bits of a position are the slot of the ticket. */
  lemma {:induction false} MaskIsSlot(n: nat, pos: nat)
    requires IsPowerOfTwo(n)
    ensures And(pos, n - 1) == Slot(n, pos)
    decreases n
  {
    SlotIsRemainder(n, pos);
    MaskIsRemainder(n, pos);
  }

  lemma {:induction false} MaskIsRemainder(n: nat, pos: nat)
    requires IsPowerOfTwo(n)
    ensures And(pos, n - 1) == pos % n
    decreases n
  {
    if n > 1 {
      var m := n / 2;
      assert n == 2 * m && (n - 1) / 2 == m - 1 && (n - 1) % 2 == 1;
      MaskIsRemainder(m, pos / 2);
      HalfRemainder(pos, m);
      if m == 1 || pos == 0 {
        AndSmall(pos, m - 1);
      }
    }
  }

  lemma AndSmall(a: nat, b: nat)
    ensures a == 0 || b == 0 ==> And(a / 2, b) == 0
  {
  }

  /// ## The calls

  class MpmcBoundedQueue<T> {
    const buffer: array<Cell<T>>
    const bufferMask: nat
    var enqueuePos: nat
    var dequeuePos: nat
    ghost var machine: State<T>

    /** The object holds what the machine holds. */
    ghost predicate InStep()
      reads this, buffer
    {
      && Inv(machine) && |machine.threads| == 1
      && buffer.Length == |machine.cells| && buffer[..] == machine.cells
      && IsPowerOfTwo(buffer.Length) && bufferMask == buffer.Length - 1
      && enqueuePos == machine.enqueuePos && dequeuePos == machine.dequeuePos
    }

    /** No call is in progress. */
    ghost predicate Valid()
      reads this, buffer
    {
      InStep() && machine.threads[0].Idle?
    }

    /** The queued items, oldest first. */
    ghost function Contents(): (items: seq<T>)
      requires Valid()
      reads this, buffer
      ensures |items| == enqueuePos - dequeuePos <= buffer.Length
    {
      PositionsBounded(machine);
      machine.history.items[dequeuePos..]
    }

    constructor (size: nat)
      requires IsPowerOfTwo(size) && size >= 2
      ensures Valid() && fresh(buffer) && buffer.Length == size && Contents() == []
    {
      buffer := new Cell<T>[size](i => Cell(if i < 0 then 0 else i, None));
      bufferMask := size - 1;
      enqueuePos, dequeuePos := 0, 0;
      machine := State(seq(size, c requires 0 <= c => Cell(c, None)), 0, 0, [Idle],
                       History([], [], [], map[], seq(size, c requires 0 <= c => c)));
      new;
      InitInv(machine);
    }

    /** A step that changes no cell and no position of the object. */
    ghost method Go(a: Action<T>)
      requires InStep() && Enabled(machine, 0, a)
      requires var next := Do(machine, 0, a);
               next.cells == machine.cells && next.enqueuePos == enqueuePos && next.dequeuePos == dequeuePos
      modifies `machine
      ensures InStep() && machine == Do(old(machine), 0, a)
    {
      StepKeeps(machine, 0, a);
      machine := Do(machine, 0, a);
    }

    /** The loop of `enqueue`. The weak compare-exchange may fail for no reason, `spurious` times. */
    method ClaimTail(data: T, spurious: nat) returns (claimed: bool, pos: nat)
      requires Valid()
      modifies `enqueuePos, `machine
      ensures InStep() && machine.history.taken == old(machine.history.taken)
      ensures claimed ==>
                && machine.threads[0] == EnqClaimed(data, pos)
                && machine.history.items == old(machine.history.items) + [data]
      ensures !claimed ==> machine.threads[0] == Refused(data) && machine.history.items == old(machine.history.items)
      ensures claimed <==> |old(Contents())| < buffer.Length
    {
      pos := enqueuePos;
      Go(BeginEnqueue(data));
      var left := spurious;
      while true
        invariant InStep() && pos == enqueuePos == old(enqueuePos) && dequeuePos == old(dequeuePos)
        invariant machine.threads == [EnqPos(data, pos)]
        invariant machine.history == old(machine.history)
        decreases left
      {
        MaskIsSlot(buffer.Length, pos);
        var cell := And(pos, bufferMask);
        var seqSeen := buffer[cell].sequence;
        TailSequence(machine, 0);
        Go(LoadSequence);
        var dif := seqSeen - pos;
        if dif == 0 {
          if left == 0 {
            StepKeeps(machine, 0, CompareExchange(false));
            machine := Do(machine, 0, CompareExchange(false));
            enqueuePos := pos + 1;
            return true, pos;
          }
          Go(CompareExchange(true));
          left := left - 1;
          pos := enqueuePos;
        } else if dif < 0 {
          Go(CompareExchange(false));
          return false, pos;
        } else {
          assert false;
          pos := enqueuePos;
        }
      }
    }

    method Enqueue(data: T, spurious: nat) returns (ok: bool)
      requires Valid()
      modifies this`enqueuePos, this`machine, buffer
      ensures Valid() && (ok <==> |old(Contents())| < buffer.Length)
      ensures Contents() == if ok then old(Contents()) + [data] else old(Contents())
    {
      var claimed, pos := ClaimTail(data, spurious);
      if !claimed {
        Go(Return);
        return false;
      }
      MaskIsSlot(buffer.Length, pos);
      var cell := And(pos, bufferMask);
      StepKeeps(machine, 0, WriteCell);
      machine := Do(machine, 0, WriteCell);
      buffer[cell] := buffer[cell].(data := Some(data));
      StepKeeps(machine, 0, Publish);
      machine := Do(machine, 0, Publish);
      buffer[cell] := buffer[cell].(sequence := pos + 1);
      Go(Return);
      ok := true;
    }

    /** The loop of `dequeue`. */
    method ClaimHead(spurious: nat) returns (claimed: bool, pos: nat)
      requires Valid()
      modifies `dequeuePos, `machine
      ensures InStep() && machine.history.items == old(machine.history.items)
      ensures claimed ==> machine.threads[0] == DeqClaimed(pos) && pos == old(dequeuePos) && dequeuePos == pos + 1
      ensures !claimed ==> machine.threads[0] == FoundEmpty && dequeuePos == old(dequeuePos)
      ensures claimed <==> old(Contents()) != []
    {
      pos := dequeuePos;
      Go(BeginDequeue);
      var left := spurious;
      while true
        invariant InStep() && pos == dequeuePos == old(dequeuePos) && enqueuePos == old(enqueuePos)
        invariant machine.threads == [DeqPos(pos)]
        invariant machine.history == old(machine.history)
        decreases left
      {
        MaskIsSlot(buffer.Length, pos);
        var cell := And(pos, bufferMask);
        var seqSeen := buffer[cell].sequence;
        HeadSequence(machine, 0);
        Go(LoadSequence);
        var dif := seqSeen - (pos + 1);
        if dif == 0 {
          if left == 0 {
            StepKeeps(machine, 0, CompareExchange(false));
            machine := Do(machine, 0, CompareExchange(false));
            dequeuePos := pos + 1;
            return true, pos;
          }
          Go(CompareExchange(true));
          left := left - 1;
          pos := dequeuePos;
        } else if dif < 0 {
          Go(CompareExchange(false));
          return false, pos;
        } else {
          assert false;
          pos := dequeuePos;
        }
      }
    }

    /** Moves the claimed item out of its cell. */
    method TakeOut(cell: nat, pos: nat) returns (data: Option<T>)
      requires InStep() && machine.threads[0] == DeqClaimed(pos) && cell == Slot(buffer.Length, pos)
      modifies `machine, buffer
      ensures InStep() && pos < |machine.history.items| && data == Some(machine.history.items[pos])
      ensures machine.threads[0] == DeqTaken(pos, data.value) && machine.history.items == old(machine.history.items)
    {
      assert ThreadInv(machine, 0);
      data := buffer[cell].data;
      StepKeeps(machine, 0, ReadCell);
      machine := Do(machine, 0, ReadCell);
      buffer[cell] := buffer[cell].(data := None);
    }

    method Dequeue(spurious: nat) returns (data: Option<T>)
      requires Valid()
      modifies this`dequeuePos, this`machine, buffer
      ensures Valid()
      ensures old(Contents()) == [] ==> data == None && Contents() == []
      ensures old(Contents()) != [] ==> data == Some(old(Contents())[0]) && Contents() == old(Contents())[1..]
    {
      var claimed, pos := ClaimHead(spurious);
      if !claimed {
        Go(Return);
        return None;
      }
      MaskIsSlot(buffer.Length, pos);
      var cell := And(pos, bufferMask);
      data := TakeOut(cell, pos);
      StepKeeps(machine, 0, Release);
      machine := Do(machine, 0, Release);
      buffer[cell] := buffer[cell].(sequence := pos + bufferMask + 1);
      Go(Return);
    }
  }

  /** Without interference the cell of the tail is free, or the queue is full. */
  lemma TailSequence<T>(s: State<T>, i: nat)
    requires Inv(s) && i < |s.threads| == 1 && s.threads[i].EnqPos? && s.threads[i].pos == s.enqueuePos
    ensures At(s, s.enqueuePos).sequence <= s.enqueuePos
    ensures At(s, s.enqueuePos).sequence == s.enqueuePos <==> s.enqueuePos < s.dequeuePos + |s.cells|
  {
    var n, pos := |s.cells|, s.enqueuePos;
    if pos <= At(s, pos).sequence {
      StillFree(s, pos);
      var c := Slot(n, pos);
      assert CellInv(s, c);
    } else {
      FullIsFull(s, i);
      PositionsBounded(s);
      var t: nat := pos - n;
      SlotAhead(n, t);
      assert CellInv(s, Slot(n, t)) && TicketInv(s, t);
    }
  }

  /** Without interference the item at the head is published, or the queue is empty. */
  lemma HeadSequence<T>(s: State<T>, i: nat)
    requires Inv(s) && i < |s.threads| == 1 && s.threads[i].DeqPos? && s.threads[i].pos == s.dequeuePos
    ensures At(s, s.dequeuePos).sequence <= s.dequeuePos + 1
    ensures At(s, s.dequeuePos).sequence == s.dequeuePos + 1 <==> s.dequeuePos < s.enqueuePos
  {
    var n, pos := |s.cells|, s.dequeuePos;
    if pos + 1 <= At(s, pos).sequence {
      StillFull(s, pos);
      assert CellInv(s, Slot(n, pos));
    } else {
      EmptyIsEmpty(s, i);
      assert CellInv(s, Slot(n, pos));
    }
  }
}
