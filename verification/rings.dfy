/** Fixed buffers used in a circle: the events that a hub retains, and the change maps that a session retains. */
module Rings {

  function Slot(start: nat, i: nat, size: nat): (r: nat)
    requires size > 0
    ensures r < size
  {
    (start + i) % size
  }

  /** What a ring holds, oldest first. */
  function Ring<T>(buffer: seq<T>, start: nat, count: nat): (r: seq<T>)
    requires |buffer| > 0
    ensures |r| == count
  {
    seq(count, i requires 0 <= i < count => buffer[Slot(start, i, |buffer|)])
  }

  lemma RingAt<T>(buffer: seq<T>, start: nat, count: nat, i: nat)
    requires |buffer| > 0 && i < count
    ensures Ring(buffer, start, count)[i] == buffer[Slot(start, i, |buffer|)]
  {
  }

  lemma SlotIs(start: nat, i: nat, size: nat)
    requires start < size && i <= size
    ensures Slot(start, i, size) == if start + i < size then start + i else start + i - size
  {
  }

  /** A ring with room takes one more behind the newest. */
  lemma RingPush<T>(buffer: seq<T>, start: nat, count: nat, e: T)
    requires start < |buffer| && count < |buffer|
    ensures Ring(buffer[Slot(start, count, |buffer|) := e], start, count + 1) == Ring(buffer, start, count) + [e]
  {
    var after := buffer[Slot(start, count, |buffer|) := e];
    forall i | 0 <= i < count
      ensures Ring(after, start, count + 1)[i] == Ring(buffer, start, count)[i]
    {
      SlotIs(start, i, |buffer|);
      SlotIs(start, count, |buffer|);
    }
  }

  /** A full ring gives up the oldest for the newest. */
  lemma RingReplace<T>(buffer: seq<T>, start: nat, e: T)
    requires start < |buffer|
    ensures Ring(buffer[start := e], Slot(start, 1, |buffer|), |buffer|) == Ring(buffer, start, |buffer|)[1..] + [e]
  {
    var size := |buffer|;
    var after := buffer[start := e];
    var next := Slot(start, 1, size);
    SlotIs(start, 1, size);
    forall i | 0 <= i < size
      ensures Ring(after, next, size)[i] == (Ring(buffer, start, size)[1..] + [e])[i]
    {
      SlotIs(next, i, size);
      SlotIs(start, i + 1, size);
    }
  }
}
