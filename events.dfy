/**
 * The event stack (`MeloList _m_event_stack`) through which the byte-level
 * code hands events to `MeloBackground`: `_notify_event` pushes, ignoring an
 * event equal to the top cell and dropping one when the stack is full;
 * `_get_event` pops, answering the idle event when it is empty. Cell 0 is never
 * written: the first event goes to cell 1, and `length` indexes the top.
 */
module Events {

  /** The whole state of the stack: its cells (`data`, `size` of them) and `length`. */
  datatype Stack = Stack(cells: seq<bv8>, length: nat)

  /** The stack has at least one cell and `length` indexes one of them. */
  predicate WellFormed(s: Stack)
  {
    1 <= |s.cells| && s.length < |s.cells|
  }

  /** The events on the stack, bottom first. */
  function Contents(s: Stack): (r: seq<bv8>)
    requires WellFormed(s)
    ensures |r| == s.length
  {
    s.cells[1..s.length + 1]
  }

  /**
   * `_notify_event`: nothing happens when `length` is `size - 1` (full) or when
   * the cell at `length` already holds `e` (the top event, or cell 0 when the
   * stack is empty); otherwise `e` goes into the next cell.
   */
  function Push(s: Stack, e: bv8): (r: Stack)
    requires WellFormed(s)
    ensures WellFormed(r) && |r.cells| == |s.cells| && r.cells[0] == s.cells[0]
    ensures Contents(r) == if s.length == |s.cells| - 1 || s.cells[s.length] == e then Contents(s) else Contents(s) + [e]
  {
    if s.length == |s.cells| - 1 then s
    else if s.cells[s.length] == e then s
    else
      var r := Stack(s.cells[s.length + 1 := e], s.length + 1);
      assert Contents(r) == Contents(s) + [e];
      r
  }

  /** `_get_event`: the idle event when the stack is empty, else the top event, which is removed. */
  function Pop(s: Stack, idle: bv8): (r: (bv8, Stack))
    requires WellFormed(s)
    ensures WellFormed(r.1) && r.1.cells == s.cells
    ensures s.length == 0 ==> r.0 == idle && Contents(r.1) == []
    ensures s.length > 0 ==> r.0 == Contents(s)[s.length - 1] && Contents(r.1) == Contents(s)[..s.length - 1]
  {
    if s.length == 0 then (idle, s)
    else
      var t := s.(length := s.length - 1);
      assert Contents(t) == Contents(s)[..s.length - 1];
      (s.cells[s.length], t)
  }

  /** No event on the stack repeats the one below it, nor the value of cell 0 for the bottom one. */
  predicate NoRepeats(s: Stack)
    requires WellFormed(s)
  {
    forall i :: 1 <= i <= s.length ==> s.cells[i] != s.cells[i - 1]
  }

  /** Pushing never makes the stack exceed `size - 1` events and never repeats the top event. */
  lemma PushKeepsNoRepeats(s: Stack, e: bv8)
    requires WellFormed(s) && NoRepeats(s)
    ensures NoRepeats(Push(s, e)) && Push(s, e).length <= |s.cells| - 1
  {
  }

  /** A push that is not dropped is undone by the next pop, which yields the pushed event. */
  lemma PushThenPop(s: Stack, e: bv8, idle: bv8)
    requires WellFormed(s) && s.length < |s.cells| - 1 && s.cells[s.length] != e
    ensures Pop(Push(s, e), idle).0 == e
    ensures Contents(Pop(Push(s, e), idle).1) == Contents(s)
  {
    var t := Push(s, e);
    assert Contents(t)[..t.length - 1] == Contents(s);
  }

  /** Pushing the same event twice in a row is pushing it once. */
  lemma PushTwice(s: Stack, e: bv8)
    requires WellFormed(s)
    ensures Push(Push(s, e), e) == Push(s, e)
  {
  }

  /**
   * What `MeloBackground` takes off the stack, in order: events from the top
   * down, until the stack is empty or an event equal to the idle event is popped.
   */
  function Drained(events: seq<bv8>, idle: bv8): (r: seq<bv8>)
    ensures |r| <= |events| && forall i :: 0 <= i < |r| ==> r[i] != idle
    decreases |events|
  {
    if events == [] || events[|events| - 1] == idle then []
    else [events[|events| - 1]] + Drained(events[..|events| - 1], idle)
  }

  /** What is left on the stack after `MeloBackground`. */
  function Leftover(events: seq<bv8>, idle: bv8): (r: seq<bv8>)
    ensures |r| <= |events|
    decreases |events|
  {
    if events == [] then []
    else if events[|events| - 1] == idle then events[..|events| - 1]
    else Leftover(events[..|events| - 1], idle)
  }

  function Reverse(s: seq<bv8>): (r: seq<bv8>)
    ensures |r| == |s|
    decreases |s|
  {
    if s == [] then [] else [s[|s| - 1]] + Reverse(s[..|s| - 1])
  }

  /** No event of `s` equals `e`. */
  predicate Avoids(s: seq<bv8>, e: bv8)
  {
    forall i :: 0 <= i < |s| ==> s[i] != e
  }

  /** Pushing an event other than the idle event keeps the idle event off the stack. */
  lemma PushAvoids(s: Stack, e: bv8, idle: bv8)
    requires WellFormed(s) && Avoids(Contents(s), idle) && e != idle
    ensures Avoids(Contents(Push(s, e)), idle)
  {
  }

  /** When no event on the stack equals the idle event, `MeloBackground` handles all of them, newest first. */
  lemma {:induction false} DrainedAll(events: seq<bv8>, idle: bv8)
    requires Avoids(events, idle)
    ensures Drained(events, idle) == Reverse(events) && Leftover(events, idle) == []
    decreases |events|
  {
    if events != [] {
      DrainedAll(events[..|events| - 1], idle);
    }
  }

  /**
   * The stack is what `MeloBackground` leaves, then the idle-valued event that
   * stopped it if one did, then the handled events in the order they were pushed.
   */
  lemma {:induction false} DrainSplits(events: seq<bv8>, idle: bv8)
    ensures var d, l := Drained(events, idle), Leftover(events, idle);
      events == l + (if |l| + |d| < |events| then [idle] else []) + Reverse(d)
    decreases |events|
  {
    if events != [] && events[|events| - 1] != idle {
      var init := events[..|events| - 1];
      DrainSplits(init, idle);
      var d := Drained(init, idle);
      assert Reverse([events[|events| - 1]] + d) == Reverse(d) + [events[|events| - 1]] by {
        ReverseCons(events[|events| - 1], d);
      }
      assert events == init + [events[|events| - 1]];
    } else if events != [] {
      assert events == events[..|events| - 1] + [idle];
    }
  }

  lemma ReverseCons(x: bv8, s: seq<bv8>)
    ensures Reverse([x] + s) == Reverse(s) + [x]
  {
    var t := [x] + s;
    if s != [] {
      assert t[..|t| - 1] == [x] + s[..|s| - 1];
      ReverseCons(x, s[..|s| - 1]);
    } else {
      assert t[..|t| - 1] == [];
    }
  }

  /** The events `MeloBackground` still has to handle once it has popped `e` from a stack holding `rest`. */
  function DrainedAfter(e: bv8, rest: seq<bv8>, idle: bv8): seq<bv8>
  {
    if e == idle then [] else [e] + Drained(rest, idle)
  }

  /** What will be left on the stack once it has popped `e` from a stack holding `rest`. */
  function LeftoverAfter(e: bv8, rest: seq<bv8>, idle: bv8): seq<bv8>
  {
    if e == idle then rest else Leftover(rest, idle)
  }

  /** One pop of `MeloBackground`'s loop, in terms of what remains to be handled and left. */
  lemma PopDrains(s: Stack, idle: bv8)
    requires WellFormed(s)
    ensures var (e, t) := Pop(s, idle);
      Drained(Contents(s), idle) == DrainedAfter(e, Contents(t), idle) &&
      Leftover(Contents(s), idle) == LeftoverAfter(e, Contents(t), idle)
  {
  }

  class EventStack {
    const data: array<bv8> // _m_event_stack.data; _m_event_stack.size is data.Length
    var length: nat        // _m_event_stack.length

    /** `length` indexes one of the cells, so `Model()` is well formed. */
    ghost predicate Valid()
      reads this
    {
      1 <= data.Length && length < data.Length
    }

    /** The whole stack state as a value. */
    ghost function Model(): Stack
      reads this, data
    {
      Stack(data[..], length)
    }

    /** `_init_event_stack`, over the zero-initialised `_m_event_stack_data` of `size` cells. */
    constructor (size: nat)
      requires 1 <= size
      ensures Valid() && fresh(data)
      ensures Model() == Stack(seq(size, _ => 0), 0)
    {
      data := new bv8[size](_ => 0);
      length := 0;
    }

    /** `_notify_event`. */
    method Notify(e: bv8)
      requires Valid()
      modifies this`length, data
      ensures Valid()
      ensures Model() == Push(old(Model()), e)
    {
      if length == data.Length - 1 {
        // the stack is full
      } else if data[length] == e {
        // a duplicate of the top event
      } else {
        length := length + 1;
        data[length] := e;
      }
    }

    /** `_get_event`. */
    method Get(idle: bv8) returns (e: bv8)
      requires Valid()
      modifies this`length
      ensures Valid()
      ensures (e, Model()) == Pop(old(Model()), idle)
    {
      if length == 0 {
        e := idle;
      } else {
        e := data[length];
        length := length - 1;
      }
    }
  }
}
