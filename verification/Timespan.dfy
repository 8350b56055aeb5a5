/** Finding the profiled call that was running at a given time (gui/profiling.h). */
module Timespan {

  datatype Call = Call(gpuStart: int, gpuDuration: int)

  /** Division by two as in C++, which rounds toward zero. */
  function Half(x: int): int {
    if x < 0 then -((-x) / 2) else x / 2
  }

  predicate Valid(calls: seq<Call>, index: seq<nat>) {
    forall k :: 0 <= k < |index| ==> index[k] < |calls|
  }

  function Start(calls: seq<Call>, index: seq<nat>, k: nat): int
    requires Valid(calls, index) && k < |index|
  {
    calls[index[k]].gpuStart
  }

  function Stop(calls: seq<Call>, index: seq<nat>, k: nat): int
    requires Valid(calls, index) && k < |index|
  {
    calls[index[k]].gpuStart + calls[index[k]].gpuDuration
  }

  predicate Covers(calls: seq<Call>, index: seq<nat>, k: nat, time: int)
    requires Valid(calls, index) && k < |index|
  {
    Start(calls, index, k) <= time < Stop(calls, index, k)
  }

  /** The spans come one after the other. */
  predicate Disjoint(calls: seq<Call>, index: seq<nat>)
    requires Valid(calls, index)
  {
    forall j, k :: 0 <= j < k < |index| ==>
      Start(calls, index, j) <= Start(calls, index, k) && Stop(calls, index, j) <= Start(calls, index, k)
  }

  /** Returns the place in index; |index| stands for the end iterator.  For any list whatsoever the
      search stays inside it and what it finds covers the time; over disjoint spans it finds the span
      that covers the time exactly if there is one, and the nearest one before it when asked to. */
  method BinarySearchTimespanIndexed(calls: seq<Call>, index: seq<nat>, time: int, nearest: bool) returns (r: nat)
    requires Valid(calls, index)
    ensures r <= |index| && (nearest && index != [] ==> r < |index|)
    ensures !nearest && r < |index| ==> Covers(calls, index, r, time)
    ensures Disjoint(calls, index) ==> (forall k: nat :: k < |index| && Covers(calls, index, k, time) ==> r == k)
    ensures Disjoint(calls, index) && nearest && index != [] ==>
      (r == 0 || Start(calls, index, r) <= time)
      && (forall k :: r < k < |index| ==> Start(calls, index, k) > time)
  {
    var lower, upper := 0, |index| - 1;
    var pos := Half(lower + upper);
    while lower <= upper
      invariant 0 <= lower <= upper + 1 <= |index|
      invariant pos == Half(lower + upper)
      invariant Disjoint(calls, index) ==> (forall k :: 0 <= k < lower ==> Start(calls, index, k) <= time)
      invariant Disjoint(calls, index) ==> (forall k :: 0 <= k < lower ==> Stop(calls, index, k) <= time)
      invariant Disjoint(calls, index) ==> (forall k :: upper < k < |index| ==> Start(calls, index, k) > time)
    {
      var call := calls[index[pos]];
      if call.gpuStart <= time && call.gpuStart + call.gpuDuration > time {
        assert Covers(calls, index, pos, time);
        break;
      }
      if call.gpuStart > time {
        assert Start(calls, index, pos) > time;
        upper := pos - 1;
      } else {
        assert Start(calls, index, pos) <= time && Stop(calls, index, pos) <= time;
        lower := pos + 1;
      }
      pos := Half(lower + upper);
    }
    if nearest || lower <= upper {
      return pos;
    } else {
      return |index|;
    }
  }
}
