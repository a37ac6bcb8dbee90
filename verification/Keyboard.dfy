/** The ring of typed characters every process has. */
module Keyboard {
  import opened Bits

  const SIZE := 1024
  const NUL := '\0'

  /** Place `k` of a ring that starts at slot `start`. */
  function Slot(start: nat, k: nat): (s: nat)
    requires start < SIZE && k <= SIZE
    ensures s < SIZE && s == (start + k) % 1024
  {
    if start + k < SIZE then start + k else start + k - SIZE
  }

  /** head++ and tail++ wrap at 32 bits, which the ring size divides. */
  function Succ(w: Word): (r: Word)
    ensures r % SIZE == Slot(w % SIZE, 1)
  {
    (w + 1) % WORD
  }

  class Ring {
    const buffer: array<char>
    var head: Word
    var tail: Word

    ghost predicate Valid()
      reads this
    {
      buffer.Length == SIZE
    }

    /** Reading from `head` on gives `q` and then nothing. */
    ghost predicate Holds(q: string)
      reads this, buffer
    {
      && Valid() && |q| <= SIZE
      && forall k :: 0 <= k < SIZE ==>
           buffer[Slot(head % SIZE, k)] == (if k < |q| then q[k] else NUL) && (k < |q| ==> q[k] != NUL)
    }

    /** The next character goes behind `q`. */
    ghost predicate InStep(q: string)
      reads this
    {
      |q| <= SIZE && tail % SIZE == Slot(head % SIZE, |q|)
    }

    /** The ring of a new process, whose structure is all zeros. */
    constructor ()
      ensures Queued("") && fresh(buffer)
    {
      buffer := new char[SIZE](i => NUL);
      head, tail := 0, 0;
    }

    /** keyboard_pop, on any ring: the character at the head, which is cleared and passed
        unless it is zero. From a ring that holds `q` that is the oldest character. */
    method Pop(ghost q: string) returns (c: char)
      requires Valid()
      modifies this, buffer
      ensures c == old(buffer[head % SIZE]) && tail == old(tail)
      ensures c == NUL ==> head == old(head) && buffer[..] == old(buffer[..])
      ensures c != NUL ==> head == Succ(old(head)) && buffer[..] == old(buffer[..][head % SIZE := NUL])
      ensures old(Holds(q)) ==> AfterPop(c, q) && (old(InStep(q)) ==> InStep(Rest(q)))
    {
      var realIndex := head % SIZE;
      c := buffer[realIndex];
      ghost var holds := Holds(q);
      assert realIndex == Slot(head % SIZE, 0);
      if c == NUL {
        return NUL;
      }
      ghost var start := realIndex;
      buffer[realIndex] := NUL;
      head := Succ(head);
      forall k | 0 <= k < SIZE && holds
        ensures buffer[Slot(head % SIZE, k)] == (if k < |q| - 1 then q[k + 1] else NUL)
      {
        assert Slot(head % SIZE, k) == Slot(start, if k == SIZE - 1 then 0 else k + 1);
      }
    }

    static function Rest(q: string): string {
      if q == "" then q else q[1..]
    }

    ghost predicate AfterPop(c: char, q: string)
      reads this, buffer
    {
      c == (if q == "" then NUL else q[0]) && Holds(Rest(q))
    }

    ghost predicate Queued(q: string)
      reads this, buffer
    {
      Holds(q) && InStep(q)
    }

    /** The ring `Push` leaves behind: a character joins the end of the queue, unless 1024
        are waiting. Then the newest takes the place of the oldest, and the ring is out of
        step. Zero is never queued. */
    ghost predicate AfterPush(c: char, q: string)
      reads this, buffer
    {
      if c == NUL then Queued(q)
      else if |q| < SIZE then Queued(q + [c])
      else Holds([c] + q[1..]) && !InStep([c] + q[1..])
    }

    /** keyboard_push, on any ring: the character goes to the tail's slot. */
    method Push(c: char, ghost q: string)
      requires Valid()
      modifies this, buffer
      ensures head == old(head)
      ensures c == NUL ==> tail == old(tail) && buffer[..] == old(buffer[..])
      ensures c != NUL ==> tail == Succ(old(tail)) && buffer[..] == old(buffer[..][tail % SIZE := c])
      ensures old(Queued(q)) ==> AfterPush(c, q)
    {
      if c == NUL {
        return;
      }
      var realIndex := tail % SIZE;
      ghost var queued, start, n := Queued(q), head % SIZE, |q|;
      buffer[realIndex] := c;
      tail := Succ(tail);
      ghost var after := if n < SIZE then q + [c] else [c] + q[1..];
      forall k | 0 <= k < SIZE && queued
        ensures buffer[Slot(start, k)] == (if k < |after| then after[k] else NUL) && (k < |after| ==> after[k] != NUL)
      {
        assert Slot(start, k) == realIndex <==> k == if n < SIZE then n else 0;
        assert n == SIZE && k > 0 ==> after[k] == q[k];
      }
    }
  }

  /** keyboard_push: without a current process nothing happens. */
  method KeyboardPush(process: Ring?, c: char, ghost q: string)
    requires process != null ==> process.Valid()
    modifies process, if process == null then null else process.buffer
    ensures process != null && old(process.Queued(q)) ==> process.AfterPush(c, q)
  {
    if process == null {
      return;
    }
    process.Push(c, q);
  }

  /** keyboard_pop: without a current task there is nothing to read. */
  method KeyboardPop(process: Ring?, ghost q: string) returns (c: char)
    requires process != null ==> process.Valid()
    modifies process, if process == null then null else process.buffer
    ensures process == null ==> c == NUL
    ensures process != null && old(process.Holds(q)) ==> process.AfterPop(c, q)
  {
    if process == null {
      return NUL;
    }
    c := process.Pop(q);
  }

  // ---- Whole runs ----

  datatype Event = Push(c: char) | Pop

  /** What is waiting after the events. */
  function Left(q: string, events: seq<Event>): string
    decreases |events|
  {
    if events == [] then q
    else match events[0]
      case Push(c) => Left(if c == NUL then q else q + [c], events[1..])
      case Pop => Left(if q == "" then q else q[1..], events[1..])
  }

  /** What the pops have returned, without the zeros. */
  function Delivered(q: string, events: seq<Event>): string
    decreases |events|
  {
    if events == [] then ""
    else match events[0]
      case Push(c) => Delivered(if c == NUL then q else q + [c], events[1..])
      case Pop => if q == "" then Delivered(q, events[1..]) else [q[0]] + Delivered(q[1..], events[1..])
  }

  function Typed(events: seq<Event>): string {
    if events == [] then ""
    else (if events[0].Push? && events[0].c != NUL then [events[0].c] else "") + Typed(events[1..])
  }

  /** Nothing is lost, doubled or reordered: what was delivered, followed by what is left,
      is what was waiting, followed by what was typed. */
  lemma {:induction false} NothingLost(q: string, events: seq<Event>)
    ensures Delivered(q, events) + Left(q, events) == q + Typed(events)
    decreases |events|
  {
    if events != [] {
      match events[0]
      case Push(c) =>
        NothingLost(if c == NUL then q else q + [c], events[1..]);
      case Pop =>
        NothingLost(if q == "" then q else q[1..], events[1..]);
        if q != "" {
          var delivered, left := Delivered(q[1..], events[1..]), Left(q[1..], events[1..]);
          assert ([q[0]] + delivered) + left == [q[0]] + (delivered + left);
          assert [q[0]] + (q[1..] + Typed(events)) == q + Typed(events);
        }
    }
  }

  /** Never more than 1024 characters are waiting. */
  predicate Fits(q: string, events: seq<Event>)
    decreases |events|
  {
    |q| <= SIZE && (events != [] ==>
      match events[0]
      case Push(c) => Fits(if c == NUL then q else q + [c], events[1..])
      case Pop => Fits(if q == "" then q else q[1..], events[1..]))
  }

  /** A run of typing and reading on one ring delivers exactly what was typed, in order. */
  method Replay(ring: Ring, events: seq<Event>, ghost q: string) returns (out: string)
    requires ring.Queued(q) && Fits(q, events)
    modifies ring, ring.buffer
    ensures out == Delivered(q, events)
    ensures ring.Queued(Left(q, events))
    decreases |events|
  {
    if events == [] {
      return "";
    }
    match events[0]
    case Push(c) =>
      ring.Push(c, q);
      out := Replay(ring, events[1..], if c == NUL then q else q + [c]);
    case Pop =>
      var c := ring.Pop(q);
      out := Replay(ring, events[1..], if q == "" then q else q[1..]);
      if c != NUL { out := [c] + out; }
  }
}
