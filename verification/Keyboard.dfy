/** The keyboard buffer of a process as a value: a ring of characters between two wrapping
    counters, and the queue it stands for. */
module KeyRing {
  import opened Machine

  const KEYBOARD_BUFFER_SIZE := 1024

  /** The buffer and its counters; an unused place holds 0. */
  datatype Ring = Ring(buffer: seq<char>, head: u32, tail: u32)

  function Index(counter: int): nat {
    counter % KEYBOARD_BUFFER_SIZE
  }

  /** The character i places behind the head. */
  function At(r: Ring, i: nat): char
    requires |r.buffer| == KEYBOARD_BUFFER_SIZE
  {
    r.buffer[Index(r.head + i)]
  }

  /** The ring holds exactly the characters of q, oldest first. */
  ghost predicate Holds(r: Ring, q: seq<char>) {
    && |r.buffer| == KEYBOARD_BUFFER_SIZE && |q| <= KEYBOARD_BUFFER_SIZE
    && r.tail == Wrap32(r.head + |q|)
    && '\0' !in q
    && forall i :: 0 <= i < KEYBOARD_BUFFER_SIZE ==> At(r, i) == if i < |q| then q[i] else '\0'
  }

  function Push(r: Ring, c: char): Ring
    requires |r.buffer| == KEYBOARD_BUFFER_SIZE
  {
    if c == '\0' then r
    else r.(buffer := r.buffer[Index(r.tail) := c], tail := Wrap32(r.tail + 1))
  }

  function Pop(r: Ring): (Ring, char)
    requires |r.buffer| == KEYBOARD_BUFFER_SIZE
  {
    var c := r.buffer[Index(r.head)];
    if c == '\0' then (r, '\0')
    else (r.(buffer := r.buffer[Index(r.head) := '\0'], head := Wrap32(r.head + 1)), c)
  }

  function Backspace(r: Ring): Ring
    requires |r.buffer| == KEYBOARD_BUFFER_SIZE
  {
    var tail := Wrap32(r.tail - 1);
    r.(buffer := r.buffer[Index(tail) := '\0'], tail := tail)
  }

  // ---------------------------------------------------------------- wrapping indices

  lemma {:induction false} WholeBuffers(a: int, b: int)
    ensures Index(KEYBOARD_BUFFER_SIZE * a + b) == Index(b)
  {
  }

  /** The size of the buffer divides 2^32, so an index survives the wrap-around of a counter. */
  lemma {:induction false} IndexOfWrapped(x: int, i: int)
    ensures Index(Wrap32(x) + i) == Index(x + i)
  {
  }

  /** Within one buffer length, different distances from a counter are different places. */
  lemma {:induction false} IndexInjective(head: int, i: int, j: int)
    requires i < j < i + KEYBOARD_BUFFER_SIZE
    ensures Index(head + i) != Index(head + j)
  {
  }

  /** A write at distance d from the head is seen at distance d only. */
  lemma {:induction false} AtUpdate(r: Ring, d: nat, c: char, tail: u32, i: nat)
    requires |r.buffer| == KEYBOARD_BUFFER_SIZE && d < KEYBOARD_BUFFER_SIZE && i < KEYBOARD_BUFFER_SIZE
    ensures At(r.(buffer := r.buffer[Index(r.head + d) := c], tail := tail), i)
         == if i == d then c else At(r, i)
  {
  }

  // ---------------------------------------------------------------- the queue

  /** The distance from head to tail shows how many characters a ring that holds a queue has. */
  lemma {:induction false} DistanceIsLength(r: Ring, q: seq<char>)
    requires Holds(r, q)
    ensures Wrap32(r.tail - r.head) == |q|
  {
  }

  /** A ring holds one queue at most. */
  lemma {:induction false} HoldsUnique(r: Ring, q: seq<char>, q': seq<char>)
    requires Holds(r, q) && Holds(r, q')
    ensures q == q'
  {
  }

  /** Below the size of the buffer, pushing a character other than 0 appends it. */
  lemma {:induction false} PushAppends(r: Ring, q: seq<char>, c: char)
    requires Holds(r, q) && |q| < KEYBOARD_BUFFER_SIZE && c != '\0'
    ensures Holds(Push(r, c), q + [c])
  {
    IndexOfWrapped(r.head + |q|, 0);
    CounterStep(r.head, |q|);
    forall i: nat | i < KEYBOARD_BUFFER_SIZE
      ensures At(Push(r, c), i) == if i < |q| + 1 then (q + [c])[i] else '\0'
    {
      AtUpdate(r, |q|, c, Push(r, c).tail, i);
    }
  }

  /** Popping an empty queue gives 0 and changes nothing. */
  lemma {:induction false} PopEmpty(r: Ring)
    requires Holds(r, [])
    ensures Pop(r) == (r, '\0')
  {
    assert At(r, 0) == '\0';
  }

  /** The head moves on by one place, and the place it leaves comes up last, cleared. */
  lemma {:induction false} AtAfterPop(r: Ring, i: nat)
    requires |r.buffer| == KEYBOARD_BUFFER_SIZE && Pop(r).1 != '\0' && i < KEYBOARD_BUFFER_SIZE
    ensures At(Pop(r).0, i) == if i + 1 < KEYBOARD_BUFFER_SIZE then At(r, i + 1) else '\0'
  {
    IndexOfWrapped(r.head + 1, i);
    assert r.head + 1 + i == r.head + (i + 1);
    if i + 1 < KEYBOARD_BUFFER_SIZE {
      IndexInjective(r.head, 0, i + 1);
    } else {
      WholeBuffers(1, r.head);
    }
  }

  lemma {:induction false} WrapSum(x: nat, y: int)
    ensures Wrap32(Wrap32(x) + y) == Wrap32(x + y)
  {
    var q, r := x / TWO_TO_THE_32, x % TWO_TO_THE_32;
    assert x + y == TWO_TO_THE_32 * q + (r + y);
  }

  lemma {:induction false} CounterStep(head: u32, n: nat)
    ensures Wrap32(Wrap32(head + n) + 1) == Wrap32(head + (n + 1))
    ensures n > 0 ==> Wrap32(Wrap32(head + n) - 1) == Wrap32(head + (n - 1))
    ensures n > 0 ==> Wrap32(Wrap32(head + 1) + (n - 1)) == Wrap32(head + n)
  {
    WrapSum(head + n, 1);
    WrapSum(head + n, -1);
    WrapSum(head + 1, n - 1);
  }

  /** Popping removes the oldest character and returns it. */
  lemma {:induction false} PopRemovesOldest(r: Ring, q: seq<char>)
    requires Holds(r, q) && q != []
    ensures Pop(r).1 == q[0] && Holds(Pop(r).0, q[1..])
  {
    assert At(r, 0) == q[0];
    CounterStep(r.head, |q|);
    forall i: nat | i < KEYBOARD_BUFFER_SIZE
      ensures At(Pop(r).0, i) == if i < |q| - 1 then q[1..][i] else '\0'
    {
      AtAfterPop(r, i);
    }
  }

  /** Backspace on a queue that is not empty drops the newest character. */
  lemma {:induction false} BackspaceDropsNewest(r: Ring, q: seq<char>)
    requires Holds(r, q) && q != []
    ensures Holds(Backspace(r), q[..|q| - 1])
  {
    var n := |q| - 1;
    CounterStep(r.head, |q|);
    IndexOfWrapped(r.head + n, 0);
    forall i: nat | i < KEYBOARD_BUFFER_SIZE
      ensures At(Backspace(r), i) == if i < n then q[..n][i] else '\0'
    {
      AtUpdate(r, n, '\0', Backspace(r).tail, i);
    }
  }

  // ---------------------------------------------------------------- where the queue is lost

  /** Pushing keeps the ring a queue exactly as long as there is a place left: one character too
      many, and no queue explains the ring any more. */
  lemma {:induction false} PushKeepsQueueIff(r: Ring, q: seq<char>, c: char)
    requires Holds(r, q) && c != '\0'
    ensures (exists q' :: Holds(Push(r, c), q')) <==> |q| < KEYBOARD_BUFFER_SIZE
  {
    if |q| < KEYBOARD_BUFFER_SIZE {
      PushAppends(r, q, c);
    } else {
      DistanceIsLength(r, q);
      forall q' | Holds(Push(r, c), q') ensures false {
        DistanceIsLength(Push(r, c), q');
      }
    }
  }

  /** Backspace keeps the ring a queue exactly when the queue is not empty: otherwise the tail
      falls behind the head. */
  lemma {:induction false} BackspaceKeepsQueueIff(r: Ring, q: seq<char>)
    requires Holds(r, q)
    ensures (exists q' :: Holds(Backspace(r), q')) <==> q != []
  {
    if q != [] {
      BackspaceDropsNewest(r, q);
    } else {
      forall q' | Holds(Backspace(r), q') ensures false {
        DistanceIsLength(Backspace(r), q');
      }
    }
  }

  // ---------------------------------------------------------------- every run

  datatype KeyEvent = KeyPush(c: char) | KeyPop | KeyBackspace

  /** What an event makes of the queue, and what it returns. */
  function QueueStep(q: seq<char>, e: KeyEvent): (seq<char>, char) {
    match e
    case KeyPush(c) => (if c == '\0' then q else q + [c], '\0')
    case KeyPop => if q == [] then (q, '\0') else (q[1..], q[0])
    case KeyBackspace => (if q == [] then q else q[..|q| - 1], '\0')
  }

  function RingStep(r: Ring, e: KeyEvent): (Ring, char)
    requires |r.buffer| == KEYBOARD_BUFFER_SIZE
  {
    match e
    case KeyPush(c) => (Push(r, c), '\0')
    case KeyPop => Pop(r)
    case KeyBackspace => (Backspace(r), '\0')
  }

  /** No push meets a full queue and no backspace an empty one. */
  predicate InBounds(q: seq<char>, events: seq<KeyEvent>)
    decreases |events|
  {
    events != [] ==>
      && (events[0].KeyPush? ==> |q| < KEYBOARD_BUFFER_SIZE)
      && (events[0].KeyBackspace? ==> q != [])
      && InBounds(QueueStep(q, events[0]).0, events[1..])
  }

  function QueueOutputs(q: seq<char>, events: seq<KeyEvent>): seq<char>
    decreases |events|
  {
    if events == [] then []
    else [QueueStep(q, events[0]).1] + QueueOutputs(QueueStep(q, events[0]).0, events[1..])
  }

  function RingOutputs(r: Ring, events: seq<KeyEvent>): seq<char>
    requires |r.buffer| == KEYBOARD_BUFFER_SIZE
    decreases |events|
  {
    if events == [] then []
    else [RingStep(r, events[0]).1] + RingOutputs(RingStep(r, events[0]).0, events[1..])
  }

  lemma {:induction false} StepRefines(r: Ring, q: seq<char>, e: KeyEvent)
    requires Holds(r, q) && InBounds(q, [e])
    ensures Holds(RingStep(r, e).0, QueueStep(q, e).0) && RingStep(r, e).1 == QueueStep(q, e).1
  {
    match e
    case KeyPush(c) => if c != '\0' { PushAppends(r, q, c); }
    case KeyPop => if q == [] { PopEmpty(r); } else { PopRemovesOldest(r, q); }
    case KeyBackspace => BackspaceDropsNewest(r, q);
  }

  /** Over every run in bounds, however often the counters wrap, the ring answers like a first-in
      first-out queue whose newest character can be taken back. */
  lemma {:induction false} RunRefinesQueue(r: Ring, q: seq<char>, events: seq<KeyEvent>)
    requires Holds(r, q) && InBounds(q, events)
    ensures RingOutputs(r, events) == QueueOutputs(q, events)
    decreases |events|
  {
    if events != [] {
      StepRefines(r, q, events[0]);
      RunRefinesQueue(RingStep(r, events[0]).0, QueueStep(q, events[0]).0, events[1..]);
    }
  }
}

/** The keyboard fields of a process, changed in place. */
module Keyboard {
  import opened Machine
  import opened KeyRing

  class KeyboardBuffer {
    const buffer: array<char>
    var tail: u32
    var head: u32

    ghost predicate Valid() {
      buffer.Length == KEYBOARD_BUFFER_SIZE
    }

    function State(): Ring
      reads this, buffer
    {
      Ring(buffer[..], head, tail)
    }

    constructor ()
      ensures Valid() && fresh(buffer) && Holds(State(), [])
    {
      buffer := new char[KEYBOARD_BUFFER_SIZE](_ => '\0');
      tail, head := 0, 0;
    }

    /** keyboard_get_tail_index */
    method GetTailIndex() returns (index: nat)
      ensures index == Index(tail)
    {
      index := tail % KEYBOARD_BUFFER_SIZE;
    }

    /** keyboard_push: a queue with room for it gets the key at its end; key 0 is ignored. */
    method Push(c: char)
      requires Valid()
      modifies this, buffer
      ensures State() == KeyRing.Push(old(State()), c)
      ensures forall q :: Holds(old(State()), q) && (c == '\0' || |q| < KEYBOARD_BUFFER_SIZE) ==>
                Holds(State(), if c == '\0' then q else q + [c])
    {
      ghost var r := State();
      forall q | Holds(r, q) && c != '\0' && |q| < KEYBOARD_BUFFER_SIZE
        ensures Holds(KeyRing.Push(r, c), q + [c])
      {
        PushAppends(r, q, c);
      }
      if c == '\0' {
        return;
      }
      var realIndex := GetTailIndex();
      buffer[realIndex] := c;
      tail := Wrap32(tail + 1);
    }

    /** keyboard_pop: the oldest key of the queue, or 0 if it is empty. */
    method Pop() returns (c: char)
      requires Valid()
      modifies this, buffer
      ensures (State(), c) == KeyRing.Pop(old(State()))
      ensures forall q :: Holds(old(State()), q) ==>
                c == (if |q| == 0 then '\0' else q[0]) && Holds(State(), if |q| == 0 then q else q[1..])
    {
      ghost var r := State();
      forall q | Holds(r, q)
        ensures KeyRing.Pop(r).1 == if |q| == 0 then '\0' else q[0]
        ensures Holds(KeyRing.Pop(r).0, if |q| == 0 then q else q[1..])
      {
        if |q| == 0 {
          PopEmpty(r);
        } else {
          PopRemovesOldest(r, q);
        }
      }
      var realIndex := head % KEYBOARD_BUFFER_SIZE;
      c := buffer[realIndex];
      if c == '\0' {
        return;
      }
      buffer[realIndex] := '\0';
      head := Wrap32(head + 1);
    }

    /** keyboard_backspace: the newest key of a queue that is not empty is dropped. */
    method Backspace()
      requires Valid()
      modifies this, buffer
      ensures State() == KeyRing.Backspace(old(State()))
      ensures forall q :: Holds(old(State()), q) && |q| > 0 ==> Holds(State(), q[..|q| - 1])
    {
      ghost var r := State();
      forall q | Holds(r, q) && |q| > 0
        ensures Holds(KeyRing.Backspace(r), q[..|q| - 1])
      {
        BackspaceDropsNewest(r, q);
      }
      tail := Wrap32(tail - 1);
      var realIndex := GetTailIndex();
      buffer[realIndex] := '\0';
    }
  }
}
