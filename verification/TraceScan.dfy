/** The trace as the loader sees it: scanning it into frames and finding a call's frame
    (gui/traceloader.cpp). */
module TraceScan {
  import opened Options
  import opened SearchSpec

  /** What the loader looks at in a parsed call; the k-th call of the trace has number k. */
  datatype TraceCall = TraceCall(endFrame: bool, push: bool, pop: bool)

  type Trace = seq<TraceCall>

  /** Where a frame starts and how many calls it has. */
  datatype FrameBookmark = FrameBookmark(start: nat, numberOfCalls: nat) {
    function End(): nat { start + numberOfCalls }
  }

  /** Frame k of a cut of the first `end` calls: it starts where the one before it ends, has at
      least one call, and only its last call can be END_FRAME, which it must be unless the frame
      is the last one; the last one ends at `end`. */
  ghost predicate FrameOk(trace: Trace, bs: seq<FrameBookmark>, k: nat, end: nat)
    requires k < |bs| && end <= |trace|
  {
    && bs[k].start == (if k == 0 then 0 else bs[k - 1].End())
    && bs[k].numberOfCalls > 0
    && bs[k].End() <= end
    && (k == |bs| - 1 ==> bs[k].End() == end)
    && (k < |bs| - 1 ==> trace[bs[k].End() - 1].endFrame)
    && (forall i :: bs[k].start <= i < bs[k].End() - 1 ==> !trace[i].endFrame)
  }

  /** bs cuts the first `end` calls into consecutive frames. */
  ghost predicate Cut(trace: Trace, bs: seq<FrameBookmark>, end: nat)
    requires end <= |trace|
  {
    (bs == [] ==> end == 0) && forall k :: 0 <= k < |bs| ==> FrameOk(trace, bs, k, end)
  }

  /** bs cuts the whole trace. */
  ghost predicate Partition(trace: Trace, bs: seq<FrameBookmark>) {
    Cut(trace, bs, |trace|)
  }

  /** The calls of frame k. */
  function FrameCalls(trace: Trace, b: FrameBookmark): Trace
    requires b.End() <= |trace|
  {
    trace[b.start..b.End()]
  }

  lemma NextStart(trace: Trace, bs: seq<FrameBookmark>, k: nat)
    requires Partition(trace, bs) && k < |bs|
    ensures bs[k].start == (if k == 0 then 0 else bs[k - 1].End())
    ensures 0 < bs[k].numberOfCalls && bs[k].End() <= |trace|
    ensures k == |bs| - 1 ==> bs[k].End() == |trace|
    ensures k < |bs| - 1 ==> trace[bs[k].End() - 1].endFrame
  {
    assert FrameOk(trace, bs, k, |trace|);
  }

  lemma {:induction false} StartsAscend(trace: Trace, bs: seq<FrameBookmark>, j: nat, k: nat)
    requires Partition(trace, bs) && j < k < |bs|
    ensures bs[j].End() <= bs[k].start
    decreases k
  {
    NextStart(trace, bs, k);
    NextStart(trace, bs, k - 1);
    if j < k - 1 {
      StartsAscend(trace, bs, j, k - 1);
    }
  }

  lemma {:induction false} SamePrefix(trace: Trace, a: seq<FrameBookmark>, b: seq<FrameBookmark>, k: nat)
    requires Partition(trace, a) && Partition(trace, b) && k <= |a| && k <= |b|
    ensures forall j :: 0 <= j < k ==> a[j] == b[j]
    decreases k
  {
    if k > 0 {
      SamePrefix(trace, a, b, k - 1);
      NextStart(trace, a, k - 1);
      NextStart(trace, b, k - 1);
      SameLength(trace, a, b, k - 1);
    }
  }

  lemma NoLonger(trace: Trace, a: seq<FrameBookmark>, b: seq<FrameBookmark>)
    requires Partition(trace, a) && Partition(trace, b)
    ensures |b| <= |a|
  {
    var k := |a|;
    if k < |b| {
      SamePrefix(trace, a, b, k);
      if k > 0 {
        NextStart(trace, a, k - 1);
      }
      NextStart(trace, b, k);
    }
  }

  /** Scanning decides the frames: a trace has one partition only. */
  lemma PartitionUnique(trace: Trace, a: seq<FrameBookmark>, b: seq<FrameBookmark>)
    requires Partition(trace, a) && Partition(trace, b)
    ensures a == b
  {
    NoLonger(trace, a, b);
    NoLonger(trace, b, a);
    SamePrefix(trace, a, b, |a|);
  }

  lemma SameLength(trace: Trace, a: seq<FrameBookmark>, b: seq<FrameBookmark>, k: nat)
    requires Partition(trace, a) && Partition(trace, b) && k < |a| && k < |b|
    requires a[k].start == b[k].start
    ensures a[k] == b[k]
  {
    assert FrameOk(trace, a, k, |trace|) && FrameOk(trace, b, k, |trace|);
  }

  /** The calls of the first n frames, one frame after the other. */
  ghost function Loaded(trace: Trace, bs: seq<FrameBookmark>, n: nat): Trace
    requires Partition(trace, bs) && n <= |bs|
  {
    if n == 0 then []
    else
      assert FrameOk(trace, bs, n - 1, |trace|);
      Loaded(trace, bs, n - 1) + FrameCalls(trace, bs[n - 1])
  }

  /** The number of calls in the first n frames. */
  ghost function CallsBefore(trace: Trace, bs: seq<FrameBookmark>, n: nat): (e: nat)
    requires Partition(trace, bs) && n <= |bs|
    ensures e <= |trace|
  {
    if n == 0 then 0
    else
      assert FrameOk(trace, bs, n - 1, |trace|);
      bs[n - 1].End()
  }

  lemma {:induction false} LoadedPrefix(trace: Trace, bs: seq<FrameBookmark>, n: nat)
    requires Partition(trace, bs) && n <= |bs|
    ensures Loaded(trace, bs, n) == trace[..CallsBefore(trace, bs, n)]
    decreases n
  {
    if n > 0 {
      LoadedPrefix(trace, bs, n - 1);
      NextStart(trace, bs, n - 1);
      var from, end := bs[n - 1].start, bs[n - 1].End();
      assert trace[..from] + trace[from..end] == trace[..end];
    }
  }

  /** All frames, one after the other, are the trace. */
  lemma FramesConcat(trace: Trace, bs: seq<FrameBookmark>)
    requires Partition(trace, bs)
    ensures Loaded(trace, bs, |bs|) == trace
  {
    LoadedPrefix(trace, bs, |bs|);
    if bs != [] {
      NextStart(trace, bs, |bs| - 1);
    }
    assert trace[..|trace|] == trace;
  }

  /** A frame created by the scan, before its calls are loaded. */
  datatype CreatedFrame = CreatedFrame(number: nat, callsToLoad: nat, lastCallIndex: nat)

  ghost predicate AllEnded(trace: Trace, bs: seq<FrameBookmark>) {
    forall k :: 0 <= k < |bs| ==> 0 < bs[k].End() <= |trace| && trace[bs[k].End() - 1].endFrame
  }

  /** The created frames carry the counts of the bookmarks and, where a frame ends with an
      END_FRAME call, that call's number. */
  ghost predicate Describes(trace: Trace, bs: seq<FrameBookmark>, fs: seq<CreatedFrame>) {
    && |fs| == |bs|
    && forall k :: 0 <= k < |fs| ==>
         && 0 < bs[k].End() <= |trace|
         && fs[k] ==
              CreatedFrame(k, bs[k].numberOfCalls, if trace[bs[k].End() - 1].endFrame then bs[k].End() - 1 else 0)
  }

  class TraceLoader {
    const trace: Trace
    var cursor: nat
    var m_frameBookmarks: seq<FrameBookmark>
    var m_createdFrames: seq<CreatedFrame>

    constructor (t: Trace)
      ensures trace == t && cursor == 0 && m_frameBookmarks == [] && m_createdFrames == []
    {
      trace := t;
      cursor := 0;
      m_frameBookmarks := [];
      m_createdFrames := [];
    }

    /** The scan's bookkeeping for one finished frame. */
    method AddFrame(start: nat, numOfCalls: nat, lastCallIndex: nat)
      requires start + numOfCalls <= |trace| && numOfCalls > 0
      requires Cut(trace, m_frameBookmarks, start) && AllEnded(trace, m_frameBookmarks)
      requires forall i :: start <= i < start + numOfCalls - 1 ==> !trace[i].endFrame
      requires Describes(trace, m_frameBookmarks, m_createdFrames)
      requires lastCallIndex == if trace[start + numOfCalls - 1].endFrame then start + numOfCalls - 1 else 0
      modifies this`m_frameBookmarks, this`m_createdFrames
      ensures Cut(trace, m_frameBookmarks, start + numOfCalls)
      ensures Describes(trace, m_frameBookmarks, m_createdFrames)
      ensures m_frameBookmarks == old(m_frameBookmarks) + [FrameBookmark(start, numOfCalls)]
    {
      Extend(trace, m_frameBookmarks, start, numOfCalls);
      m_createdFrames := m_createdFrames + [CreatedFrame(|m_createdFrames|, numOfCalls, lastCallIndex)];
      m_frameBookmarks := m_frameBookmarks + [FrameBookmark(start, numOfCalls)];
    }

    /** One frame for each END_FRAME call, and one for calls left over at the end.  Only frames
        that end with an END_FRAME call are told the number of their last call. */
    method ScanTrace()
      requires cursor == 0 && m_frameBookmarks == [] && m_createdFrames == []
      modifies this
      ensures Partition(trace, m_frameBookmarks)
      ensures Describes(trace, m_frameBookmarks, m_createdFrames)
    {
      var startBookmark: nat := cursor;
      var numOfCalls: nat := 0;
      while cursor < |trace|
        invariant startBookmark + numOfCalls == cursor <= |trace|
        invariant Cut(trace, m_frameBookmarks, startBookmark) && AllEnded(trace, m_frameBookmarks)
        invariant forall i :: startBookmark <= i < cursor ==> !trace[i].endFrame
        invariant Describes(trace, m_frameBookmarks, m_createdFrames)
        decreases |trace| - cursor
      {
        var call, no := trace[cursor], cursor;
        cursor := cursor + 1;
        numOfCalls := numOfCalls + 1;
        if call.endFrame {
          AddFrame(startBookmark, numOfCalls, no);
          startBookmark := cursor;
          numOfCalls := 0;
        }
      }
      if numOfCalls != 0 {
        AddFrame(startBookmark, numOfCalls, 0);
      }
    }

    static lemma Extend(trace: Trace, bs: seq<FrameBookmark>, start: nat, n: nat)
      requires start + n <= |trace| && n > 0
      requires Cut(trace, bs, start) && AllEnded(trace, bs)
      requires forall i :: start <= i < start + n - 1 ==> !trace[i].endFrame
      ensures Cut(trace, bs + [FrameBookmark(start, n)], start + n)
    {
      var bs', end := bs + [FrameBookmark(start, n)], start + n;
      if bs != [] {
        assert FrameOk(trace, bs, |bs| - 1, start);
      }
      forall k | 0 <= k < |bs'| ensures FrameOk(trace, bs', k, end) {
        if k < |bs| {
          assert FrameOk(trace, bs, k, start);
        }
      }
    }

    /** The frame that holds call number callIdx, by adding up the frames before it. */
    method CallInFrame(callIdx: int) returns (frameIdx: nat)
      requires Partition(trace, m_frameBookmarks)
      requires 0 <= callIdx < |trace|
      ensures frameIdx < |m_frameBookmarks|
      ensures m_frameBookmarks[frameIdx].start <= callIdx < m_frameBookmarks[frameIdx].End()
    {
      var numCalls: nat := 0;
      frameIdx := 0;
      while frameIdx < |m_frameBookmarks|
        invariant frameIdx <= |m_frameBookmarks|
        invariant numCalls == if frameIdx == 0 then 0 else m_frameBookmarks[frameIdx - 1].End()
        invariant numCalls <= callIdx
      {
        NextStart(trace, m_frameBookmarks, frameIdx);
        var firstCall := numCalls;
        var endCall := numCalls + m_frameBookmarks[frameIdx].numberOfCalls;
        if firstCall <= callIdx && endCall > callIdx {
          return;
        }
        numCalls := endCall;
        frameIdx := frameIdx + 1;
      }
      if m_frameBookmarks != [] {
        NextStart(trace, m_frameBookmarks, |m_frameBookmarks| - 1);
      }
      assert false;
    }

    /** Parses from the start of a frame to the first call that matches.  What is posted then is
        the contents of that call's frame and the call. */
    method SearchNext(startFrame: nat, hits: set<nat>) returns (found: Option<nat>, frameIdx: nat)
      requires Partition(trace, m_frameBookmarks) && startFrame < |m_frameBookmarks|
      modifies this`cursor
      ensures found == FirstHit(hits, m_frameBookmarks[startFrame].start, |trace|)
      ensures found.Some? ==>
        && frameIdx < |m_frameBookmarks|
        && m_frameBookmarks[frameIdx].start <= found.value < m_frameBookmarks[frameIdx].End()
    {
      NextStart(trace, m_frameBookmarks, startFrame);
      cursor := m_frameBookmarks[startFrame].start;
      frameIdx := 0;
      while cursor < |trace|
        invariant cursor <= |trace|
        invariant FirstHit(hits, cursor, |trace|) == FirstHit(hits, m_frameBookmarks[startFrame].start, |trace|)
        decreases |trace| - cursor
      {
        var no := cursor;
        cursor := cursor + 1;
        if no in hits {
          frameIdx := CallInFrame(no);
          return Some(no), frameIdx;
        }
      }
      return None, 0;
    }

    /** The calls of one frame from the last to the first. */
    method SearchCallsBackwards(calls: seq<nat>, hits: set<nat>) returns (found: Option<nat>)
      requires Consecutive(calls)
      ensures calls == [] ==> found == None
      ensures calls != [] ==>
        LastHit(hits, calls[0] + |calls|) == if found.Some? then found else LastHit(hits, calls[0])
      ensures found.Some? ==> calls != [] && found.value >= calls[0]
    {
      var i := |calls| - 1;
      while i >= 0
        invariant -1 <= i < |calls|
        invariant calls != [] ==> LastHit(hits, calls[0] + |calls|) == LastHit(hits, calls[0] + i + 1)
      {
        assert calls[i] == calls[0] + i;
        if calls[i] in hits {
          return Some(calls[i]);
        }
        i := i - 1;
      }
      return None;
    }

    static ghost predicate Consecutive(calls: seq<nat>) {
      forall i :: 0 <= i < |calls| ==> calls[i] == calls[0] + i
    }

    /** Parses a frame completely, looks through it backwards, and goes on with the frame before
        it.  After the first frame of the trace the loop reads on to the end of the trace with a
        negative count, finding nothing more. */
    method SearchPrev(startFrame: nat, hits: set<nat>) returns (found: Option<nat>)
      requires Partition(trace, m_frameBookmarks) && startFrame < |m_frameBookmarks|
      modifies this`cursor
      ensures found == LastHit(hits, m_frameBookmarks[startFrame].End())
    {
      var frameIdx: int := startFrame;
      var frameCalls: seq<nat> := [];
      var numCallsToParse: int := m_frameBookmarks[frameIdx].numberOfCalls;
      NextStart(trace, m_frameBookmarks, startFrame);
      cursor := m_frameBookmarks[frameIdx].start;
      ghost var goal := LastHit(hits, m_frameBookmarks[startFrame].End());
      hide Partition, LastHit;
      while cursor < |trace|
        invariant -1 <= frameIdx <= startFrame && cursor <= |trace|
        invariant frameIdx >= 0 ==> Consecutive(frameCalls)
        invariant frameIdx >= 0 ==>
          var b := m_frameBookmarks[frameIdx];
          && b.start + |frameCalls| == cursor < b.End() <= |trace|
          && numCallsToParse == b.End() - cursor
          && (frameCalls != [] ==> frameCalls[0] == b.start)
          && LastHit(hits, b.End()) == goal
        invariant frameIdx < 0 ==> numCallsToParse <= 0 && goal == None
        decreases frameIdx + 1, |trace| - cursor
      {
        frameCalls := frameCalls + [cursor];
        cursor := cursor + 1;
        numCallsToParse := numCallsToParse - 1;
        if numCallsToParse == 0 {
          NextStart(trace, m_frameBookmarks, frameIdx);
          found := SearchCallsBackwards(frameCalls, hits);
          frameCalls := [];
          if found.Some? {
            return;
          }
          frameIdx := frameIdx - 1;
          if frameIdx >= 0 {
            NextStart(trace, m_frameBookmarks, frameIdx);
            cursor := m_frameBookmarks[frameIdx].start;
            numCallsToParse := m_frameBookmarks[frameIdx].numberOfCalls;
          }
        }
      }
      return None;
    }
  }

  /** At most one frame holds a call. */
  lemma FrameUnique(trace: Trace, bs: seq<FrameBookmark>, i: nat, j: nat, k: nat)
    requires Partition(trace, bs) && j < |bs| && k < |bs|
    requires bs[j].start <= i < bs[j].End() && bs[k].start <= i < bs[k].End()
    ensures j == k
  {
    if j < k {
      StartsAscend(trace, bs, j, k);
    } else if k < j {
      StartsAscend(trace, bs, k, j);
    }
  }
}
