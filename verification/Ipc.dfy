/** The message ring between threads (sched.c): a circular buffer with removal from the middle. */
module Ipc {
  import opened Options

  const MAX_MSG: nat := 32

  datatype Message = Message(sender: nat, dest: nat, kind: nat, args: seq<nat>)

  // ---------- the queue as a sequence ----------

  function Wrap(i: nat): (w: nat)
    requires i < 2 * MAX_MSG
    ensures w < MAX_MSG
  {
    if i < MAX_MSG then i else i - MAX_MSG
  }

  function Count(head: nat, tail: nat): (n: nat)
    requires head < MAX_MSG && tail < MAX_MSG
    ensures n < MAX_MSG && Wrap(tail + n) == head
  {
    if head >= tail then head - tail else head + MAX_MSG - tail
  }

  /** The waiting messages, oldest first. */
  function Contents(q: seq<Message>, head: nat, tail: nat): (c: seq<Message>)
    requires |q| == MAX_MSG && head < MAX_MSG && tail < MAX_MSG
    ensures |c| == Count(head, tail)
  {
    seq(Count(head, tail), i requires 0 <= i < Count(head, tail) => Place(q, tail, i))
  }

  /** The entry `i` places after the tail. */
  function Place(q: seq<Message>, tail: nat, i: nat): Message
    requires |q| == MAX_MSG && tail < MAX_MSG && i < MAX_MSG
  {
    q[Wrap(tail + i)]
  }

  lemma PlaceUpdate(q: seq<Message>, tail: nat, k: nat, m: Message)
    requires |q| == MAX_MSG && tail < MAX_MSG && k < MAX_MSG
    ensures forall j: nat | j < MAX_MSG ::
              Place(q[Wrap(tail + k) := m], tail, j) == if j == k then m else Place(q, tail, j)
  {
    var r := q[Wrap(tail + k) := m];
    forall j: nat | j < MAX_MSG
      ensures Place(r, tail, j) == if j == k then m else Place(q, tail, j)
    {
      if j != k {
        assert Wrap(tail + j) != Wrap(tail + k);
      }
    }
  }

  /** The oldest message for `dest`, or the length of the sequence. */
  function FirstFor(c: seq<Message>, dest: nat): (i: nat)
    ensures i <= |c|
    ensures i < |c| ==> c[i].dest == dest
    ensures forall j | 0 <= j < i :: c[j].dest != dest
  {
    if |c| == 0 || c[0].dest == dest then 0 else 1 + FirstFor(c[1..], dest)
  }

  lemma FirstForIs(c: seq<Message>, dest: nat, i: nat)
    requires i <= |c| && (i < |c| ==> c[i].dest == dest) && forall j | 0 <= j < i :: c[j].dest != dest
    ensures FirstFor(c, dest) == i
  {
    var f := FirstFor(c, dest);
    assert f < |c| ==> c[f].dest == dest;
  }

  function Without<T>(c: seq<T>, i: nat): seq<T>
    requires i < |c|
  {
    c[..i] + c[i + 1..]
  }

  // ---------- delivery over runs ----------

  datatype Op = Send(m: Message) | Recv(dest: nat)

  function Step(c: seq<Message>, op: Op): seq<Message> {
    match op
    case Send(m) => if |c| == MAX_MSG - 1 then c else c + [m]
    case Recv(dest) => var i := FirstFor(c, dest); if i == |c| then c else Without(c, i)
  }

  function Run(c: seq<Message>, ops: seq<Op>): seq<Message>
    decreases |ops|
  {
    if |ops| == 0 then c else Run(Step(c, ops[0]), ops[1..])
  }

  /** The messages for `dest`, in order. */
  function For(c: seq<Message>, dest: nat): seq<Message> {
    if |c| == 0 then [] else (if c[0].dest == dest then [c[0]] else []) + For(c[1..], dest)
  }

  /** The message for `dest` that a step accepts, if any. */
  function AcceptedBy(c: seq<Message>, op: Op, dest: nat): seq<Message> {
    if op.Send? && op.m.dest == dest && |c| != MAX_MSG - 1 then [op.m] else []
  }

  /** The message that `dest` receives in a step, if any. */
  function ReceivedBy(c: seq<Message>, op: Op, dest: nat): seq<Message> {
    if op.Recv? && op.dest == dest && FirstFor(c, dest) < |c| then [c[FirstFor(c, dest)]] else []
  }

  function Accepted(c: seq<Message>, ops: seq<Op>, dest: nat): seq<Message>
    decreases |ops|
  {
    if |ops| == 0 then [] else AcceptedBy(c, ops[0], dest) + Accepted(Step(c, ops[0]), ops[1..], dest)
  }

  function Received(c: seq<Message>, ops: seq<Op>, dest: nat): seq<Message>
    decreases |ops|
  {
    if |ops| == 0 then [] else ReceivedBy(c, ops[0], dest) + Received(Step(c, ops[0]), ops[1..], dest)
  }

  lemma {:induction false} ForConcat(a: seq<Message>, b: seq<Message>, dest: nat)
    ensures For(a + b, dest) == For(a, dest) + For(b, dest)
    decreases |a|
  {
    hide For;
    if |a| == 0 {
      assert a + b == b;
      assert For(a, dest) == [] by { ForNone(a, dest); }
      assert [] + For(b, dest) == For(b, dest);
    } else {
      var m, rest := a[0], a[1..];
      assert a == [m] + rest && a + b == [m] + (rest + b);
      ForCons(m, rest, dest);
      ForCons(m, rest + b, dest);
      ForConcat(rest, b, dest);
      Assoc(For([m], dest), For(rest, dest), For(b, dest));
    }
  }

  lemma ForCons(m: Message, c: seq<Message>, dest: nat)
    ensures For([m] + c, dest) == For([m], dest) + For(c, dest)
  {
    assert ([m] + c)[1..] == c;
    ForOne(m, dest);
  }

  lemma Assoc<T>(a: seq<T>, b: seq<T>, c: seq<T>)
    ensures a + (b + c) == a + b + c
  {
  }

  lemma {:induction false} ForNone(c: seq<Message>, dest: nat)
    requires forall j | 0 <= j < |c| :: c[j].dest != dest
    ensures For(c, dest) == []
    decreases |c|
  {
    if |c| != 0 {
      ForNone(c[1..], dest);
    }
  }

  lemma ForOne(m: Message, dest: nat)
    ensures For([m], dest) == if m.dest == dest then [m] else []
  {
    assert [m][1..] == [];
  }

  /** Taking out the message at `i` removes it from its own receiver's view and from nobody else's. */
  lemma ForWithout(c: seq<Message>, i: nat, dest: nat)
    requires i < |c|
    ensures For(c, dest) == For(c[..i], dest) + For([c[i]], dest) + For(c[i + 1..], dest)
    ensures For(Without(c, i), dest) == For(c[..i], dest) + For(c[i + 1..], dest)
  {
    assert c == c[..i] + ([c[i]] + c[i + 1..]);
    ForConcat(c[..i], [c[i]] + c[i + 1..], dest);
    ForConcat([c[i]], c[i + 1..], dest);
    ForConcat(c[..i], c[i + 1..], dest);
  }

  lemma StepDelivery(c: seq<Message>, op: Op, dest: nat)
    ensures ReceivedBy(c, op, dest) + For(Step(c, op), dest) == For(c, dest) + AcceptedBy(c, op, dest)
  {
    match op {
      case Send(m) =>
        ForConcat(c, [m], dest);
        ForOne(m, dest);
      case Recv(d) =>
        var i := FirstFor(c, d);
        if i < |c| {
          ForWithout(c, i, dest);
          ForOne(c[i], dest);
          if d == dest {
            ForNone(c[..i], dest);
          }
        }
    }
  }

  /** Over every run each receiver gets its accepted messages exactly once and in order:
      what it received, followed by what still waits for it, is what waited before, followed by what was accepted. */
  lemma {:induction false} Delivery(c: seq<Message>, ops: seq<Op>, dest: nat)
    ensures Received(c, ops, dest) + For(Run(c, ops), dest) == For(c, dest) + Accepted(c, ops, dest)
    decreases |ops|
  {
    hide For, Step, ReceivedBy, AcceptedBy;
    if |ops| != 0 {
      var c1 := Step(c, ops[0]);
      Delivery(c1, ops[1..], dest);
      StepDelivery(c, ops[0], dest);
      Chain(ReceivedBy(c, ops[0], dest), Received(c1, ops[1..], dest), For(Run(c1, ops[1..]), dest),
            For(c1, dest), Accepted(c1, ops[1..], dest), For(c, dest), AcceptedBy(c, ops[0], dest));
    }
  }

  lemma Chain<T>(r: seq<T>, rs: seq<T>, end: seq<T>, mid: seq<T>, acc: seq<T>, start: seq<T>, a: seq<T>)
    requires rs + end == mid + acc && r + mid == start + a
    ensures (r + rs) + end == start + (a + acc)
  {
    assert (r + rs) + end == r + (rs + end);
    assert r + (mid + acc) == (r + mid) + acc;
    assert (start + a) + acc == start + (a + acc);
  }

  /** The queue never holds more than 31 messages. */
  lemma {:induction false} Capacity(c: seq<Message>, ops: seq<Op>)
    requires |c| <= 31
    ensures |Run(c, ops)| <= 31
    decreases |ops|
  {
    if |ops| != 0 {
      Capacity(Step(c, ops[0]), ops[1..]);
    }
  }

  // ---------- the ring in memory ----------

  /** The messages from `i` on have moved down one place as far as `k`. */
  ghost predicate Shifted(q: seq<Message>, tail: nat, c: seq<Message>, i: nat, k: nat)
    requires |q| == MAX_MSG && tail < MAX_MSG && |c| < MAX_MSG
  {
    && (forall j: nat {:trigger Place(q, tail, j)} | i <= j < k < |c| :: Place(q, tail, j) == c[j + 1])
    && (forall j: nat {:trigger Place(q, tail, j)} | (j < i || k <= j) && j < |c| :: Place(q, tail, j) == c[j])
  }

  lemma NothingShifted(q: seq<Message>, head: nat, tail: nat, i: nat)
    requires |q| == MAX_MSG && head < MAX_MSG && tail < MAX_MSG
    ensures Shifted(q, tail, Contents(q, head, tail), i, i)
  {
    var c := Contents(q, head, tail);
    assert forall j: nat | j < |c| :: c[j] == Place(q, tail, j);
  }

  lemma ShiftStep(q: seq<Message>, tail: nat, c: seq<Message>, i: nat, k: nat)
    requires |q| == MAX_MSG && tail < MAX_MSG && |c| < MAX_MSG && i <= k && k + 1 < |c| && Shifted(q, tail, c, i, k)
    ensures Shifted(q[Wrap(tail + k) := q[Wrap(tail + (k + 1))]], tail, c, i, k + 1)
  {
    hide Wrap;
    assert Place(q, tail, k + 1) == c[k + 1];
    PlaceUpdate(q, tail, k, c[k + 1]);
    var r := q[Wrap(tail + k) := q[Wrap(tail + (k + 1))]];
    assert r == q[Wrap(tail + k) := c[k + 1]];
    forall j: nat | j < |c|
      ensures i <= j <= k ==> Place(r, tail, j) == c[j + 1]
      ensures j < i || k + 1 <= j ==> Place(r, tail, j) == c[j]
    {
      assert Place(r, tail, j) == if j == k then c[k + 1] else Place(q, tail, j);
    }
  }

  /** The place after `k`, and when it is the head. */
  lemma NextPlace(k: nat, n: nat, head: nat, tail: nat)
    requires head < MAX_MSG && tail < MAX_MSG && n == Count(head, tail) && k < n
    ensures (Wrap(tail + k) + 1) % MAX_MSG == Wrap(tail + (k + 1))
    ensures Wrap(tail + (k + 1)) == head <==> k + 1 == n
    ensures Wrap(tail + k) != head
  {
  }

  lemma ShiftDone(q: seq<Message>, head: nat, head': nat, tail: nat, c: seq<Message>, i: nat, k: nat)
    requires |q| == MAX_MSG && head < MAX_MSG && tail < MAX_MSG && |c| == Count(head, tail) && i <= k && k + 1 == |c|
    requires head' == (if head == 0 then MAX_MSG - 1 else head - 1) && Shifted(q, tail, c, i, k)
    ensures Contents(q, head', tail) == Without(c, i)
  {
    var w, r := Contents(q, head', tail), Without(c, i);
    assert |w| == |r|;
    forall j: nat | j < |r|
      ensures w[j] == r[j]
    {
      assert w[j] == Place(q, tail, j);
    }
  }

  class Ring {
    const queue: array<Message>
    var head: nat
    var tail: nat

    ghost predicate Valid()
      reads this
    {
      queue.Length == MAX_MSG && head < MAX_MSG && tail < MAX_MSG
    }

    /** The abstract value. */
    ghost function Waiting(): seq<Message>
      requires Valid()
      reads this, queue
    {
      Contents(queue[..], head, tail)
    }

    constructor (queue: array<Message>)
      requires queue.Length == MAX_MSG
      ensures Valid() && this.queue == queue && Waiting() == []
    {
      this.queue, head, tail := queue, 0, 0;
    }

    /** `woos_ipc_send`: -1 and no change exactly when 31 messages wait. */
    method Send(m: Message) returns (status: int)
      requires Valid()
      modifies this`head, queue
      ensures Valid() && tail == old(tail)
      ensures Waiting() == Step(old(Waiting()), Op.Send(m))
      ensures status == if old(|Waiting()|) == MAX_MSG - 1 then -1 else 0
    {
      var nextHead := (head + 1) % MAX_MSG;
      if nextHead == tail {
        return -1;
      }
      ghost var before := Waiting();
      queue[head] := m;
      head := nextHead;
      forall i | 0 <= i < |before|
        ensures Waiting()[i] == before[i]
      {
        assert Wrap(tail + i) != old(head);
      }
      assert Waiting() == before + [m];
      return 0;
    }

    /** `woos_ipc_recv`: the oldest message for the caller, all others keeping their order; the tail never moves. */
    method Recv(current: nat) returns (msg: Option<Message>)
      requires Valid()
      modifies this`head, queue
      ensures Valid() && tail == old(tail)
      ensures Waiting() == Step(old(Waiting()), Op.Recv(current))
      ensures var i := FirstFor(old(Waiting()), current);
              msg == if i == |old(Waiting())| then None else Some(old(Waiting())[i])
    {
      hide Contents, Place, Wrap, Count;
      ghost var c := Waiting();
      ghost var i := 0;
      var scan := tail;
      AtTail(tail);
      while scan != head
        invariant Valid() && head == old(head) && Waiting() == c && queue[..] == old(queue[..])
        invariant i <= |c| && scan == Wrap(tail + i)
        invariant forall j | 0 <= j < i :: c[j].dest != current
        decreases |c| - i
      {
        ScanAt(queue[..], head, tail, i, scan);
        if queue[scan].dest == current {
          msg := Some(queue[scan]);
          FirstForIs(c, current, i);
          Remove(scan, i);
          return;
        }
        scan := (scan + 1) % MAX_MSG;
        i := i + 1;
      }
      AtEnd(i, |c|, head, tail);
      FirstForIs(c, current, i);
      return None;
    }

    /** Close the gap at `scan` by shifting, then step the head back. */
    method Remove(scan: nat, ghost i: nat)
      requires Valid() && i < |Waiting()| && scan == Wrap(tail + i)
      modifies this`head, queue
      ensures Valid() && tail == old(tail)
      ensures Waiting() == Without(old(Waiting()), i)
    {
      hide Shifted, Wrap, Place;
      ghost var c := Waiting();
      ghost var k := i;
      var shift := scan;
      NothingShifted(queue[..], head, tail, i);
      while shift != head
        invariant Valid() && head == old(head) && tail == old(tail)
        invariant i <= k < |c| && shift == Wrap(tail + k) && Shifted(queue[..], tail, c, i, k)
        decreases |c| - k
      {
        var next := (shift + 1) % MAX_MSG;
        NextPlace(k, |c|, head, tail);
        if next == head {
          break;
        }
        ShiftStep(queue[..], tail, c, i, k);
        ghost var before := queue[..];
        queue[shift] := queue[next];
        assert queue[..] == before[shift := before[next]];
        shift := next;
        k := k + 1;
      }
      NextPlace(k, |c|, head, tail);
      if head == 0 {
        head := MAX_MSG - 1;
      } else {
        head := head - 1;
      }
      ShiftDone(queue[..], old(head), head, tail, c, i, k);
    }

    /** `woos_ipc_pending`: 1 exactly when `Recv` would return a message. */
    method Pending(current: nat) returns (r: nat)
      requires Valid()
      ensures r == if FirstFor(Waiting(), current) < |Waiting()| then 1 else 0
    {
      hide Contents, Place, Wrap, Count;
      ghost var c := Waiting();
      ghost var i := 0;
      var scan := tail;
      AtTail(tail);
      while scan != head
        invariant i <= |c| && scan == Wrap(tail + i)
        invariant forall j | 0 <= j < i :: c[j].dest != current
        decreases |c| - i
      {
        ScanAt(queue[..], head, tail, i, scan);
        if queue[scan].dest == current {
          FirstForIs(c, current, i);
          return 1;
        }
        scan := (scan + 1) % MAX_MSG;
        i := i + 1;
      }
      AtEnd(i, |c|, head, tail);
      FirstForIs(c, current, i);
      return 0;
    }
  }

  lemma AtTail(tail: nat)
    requires tail < MAX_MSG
    ensures Wrap(tail) == tail
  {
  }

  /** The scan position is at the `i`-th waiting message, and the next one at the one behind it. */
  lemma ScanAt(q: seq<Message>, head: nat, tail: nat, i: nat, scan: nat)
    requires |q| == MAX_MSG && head < MAX_MSG && tail < MAX_MSG && i <= Count(head, tail)
    requires scan == Wrap(tail + i) && scan != head
    ensures i < Count(head, tail) && Contents(q, head, tail)[i] == q[scan] && (scan + 1) % MAX_MSG == Wrap(tail + i + 1)
  {
  }

  lemma AtEnd(i: nat, n: nat, head: nat, tail: nat)
    requires head < MAX_MSG && tail < MAX_MSG && n == Count(head, tail) && i <= n && head == Wrap(tail + i)
    ensures i == n
  {
  }
}
