/** What findNext and findPrev report, together with the loader's part of the search, is what a
    plain scan of the whole trace reports -- whichever frames are loaded. */
module TraceSearch {
  import opened Options
  import opened SearchSpec
  import opened TraceScan
  import opened GuiTrace

  /** The number of the call that is reported in the end: by the GUI itself or, if it asks the
      loader to go on, by the loader (TraceLoader.SearchNext and SearchPrev). */
  function Answer(bs: seq<FrameBookmark>, total: nat, o: Outcome, forward: bool, hits: set<nat>): Option<nat> {
    match o
    case Found(c) => Some(c.index)
    case Wrapped => None
    case Ask(i) =>
      if i >= |bs| then None
      else if forward then FirstHit(hits, bs[i].start, total)
      else LastHit(hits, bs[i].End())
  }

  lemma {:induction false} FirstInCallsIsScan(calls: seq<Call>, b: FrameBookmark, from: nat, hits: set<nat>)
    requires CallsFit(calls, b) && from <= |calls|
    ensures FirstHit(hits, b.start + from, b.End()) ==
      match FirstInCalls(calls, from, hits) case None => None case Some(p) => Some(calls[p].index)
    decreases |calls| - from
  {
    if from < |calls| && calls[from].index !in hits {
      FirstInCallsIsScan(calls, b, from + 1, hits);
    }
  }

  lemma {:induction false} LastInCallsIsScan(calls: seq<Call>, b: FrameBookmark, to: nat, hits: set<nat>)
    requires CallsFit(calls, b) && to <= |calls|
    ensures LastHit(hits, b.start + to) ==
      match LastInCalls(calls, to, hits) case None => LastHit(hits, b.start) case Some(p) => Some(calls[p].index)
  {
    if to > 0 && calls[to - 1].index !in hits {
      LastInCallsIsScan(calls, b, to - 1, hits);
    }
  }

  function StartOf(bs: seq<FrameBookmark>, i: nat, total: nat): nat {
    if i < |bs| then bs[i].start else total
  }

  lemma NextStartOf(trace: Trace, bs: seq<FrameBookmark>, i: nat)
    requires Partition(trace, bs) && i < |bs|
    ensures bs[i].End() == StartOf(bs, i + 1, |trace|)
    ensures bs[i].start <= bs[i].End() <= |trace|
    ensures bs[i].start == if i == 0 then 0 else bs[i - 1].End()
  {
    NextStart(trace, bs, i);
    if i + 1 < |bs| {
      NextStart(trace, bs, i + 1);
    }
  }

  /** The rest of a loaded frame from position p on, then the frames behind it. */
  lemma LoadedThenNext(
      trace: Trace, bs: seq<FrameBookmark>, frames: seq<Frame>, f: nat, p: nat, hits: set<nat>)
    requires Partition(trace, bs) && FramesFit(frames, bs) && f < |bs| && frames[f].loaded && p <= |frames[f].calls|
    ensures FirstHit(hits, bs[f].start + p, |trace|) ==
      match FirstInCalls(frames[f].calls, p, hits)
      case Some(q) => Some(frames[f].calls[q].index)
      case None => Answer(bs, |trace|, NextFrames(frames, f + 1, hits), true, hits)
  {
    NextStartOf(trace, bs, f);
    assert FrameFits(frames[f], bs[f]) && |frames| == |bs|;
    hide FramesFit, Partition, FirstHit, FirstInCalls, NextFrames;
    FirstInCallsIsScan(frames[f].calls, bs[f], p, hits);
    FirstHitSplit(hits, bs[f].start + p, bs[f].End(), |trace|);
    NextFramesIsScan(trace, bs, frames, f + 1, hits);
  }

  lemma {:induction false} NextFramesIsScan(
      trace: Trace, bs: seq<FrameBookmark>, frames: seq<Frame>, i: nat, hits: set<nat>)
    requires Partition(trace, bs) && FramesFit(frames, bs) && i <= |bs|
    ensures Answer(bs, |trace|, NextFrames(frames, i, hits), true, hits)
      == FirstHit(hits, StartOf(bs, i, |trace|), |trace|)
    decreases |bs| - i
  {
    if i < |bs| {
      NextStartOf(trace, bs, i);
      assert FrameFits(frames[i], bs[i]);
      if frames[i].loaded {
        FirstInCallsIsScan(frames[i].calls, bs[i], 0, hits);
        FirstHitSplit(hits, bs[i].start, bs[i].End(), |trace|);
        NextFramesIsScan(trace, bs, frames, i + 1, hits);
      }
    }
  }

  lemma {:induction false} PrevFramesIsScan(
      trace: Trace, bs: seq<FrameBookmark>, frames: seq<Frame>, i: nat, hits: set<nat>)
    requires Partition(trace, bs) && FramesFit(frames, bs) && i <= |bs|
    ensures Answer(bs, |trace|, PrevFrames(frames, i, hits), false, hits)
      == LastHit(hits, if i == 0 then 0 else bs[i - 1].End())
  {
    if i > 0 {
      NextStartOf(trace, bs, i - 1);
      assert FrameFits(frames[i - 1], bs[i - 1]);
      if frames[i - 1].loaded {
        LastInCallsIsScan(frames[i - 1].calls, bs[i - 1], |frames[i - 1].calls|, hits);
        PrevFramesIsScan(trace, bs, frames, i - 1, hits);
      }
    }
  }

  /** Whether the search can start at `from`: it is one of the objects of the loaded frame. */
  predicate Anchored(frames: seq<Frame>, f: nat, from: Option<Call>)
    requires f < |frames|
  {
    frames[f].loaded && from.Some? && PositionOf(frames[f].calls, from.value) >= 0
  }

  lemma FoundOrNext(
      bs: seq<FrameBookmark>, total: nat, frames: seq<Frame>, f: nat, from: Option<Call>, p: nat, hits: set<nat>)
    requires f < |frames| && frames[f].loaded
    requires p == if from.None? then 0 else PositionOf(frames[f].calls, from.value) + 1
    ensures Answer(bs, total, OnFindNext(frames, f, from, hits), true, hits) ==
      match FirstInCalls(frames[f].calls, p, hits)
      case Some(q) => Some(frames[f].calls[q].index)
      case None => Answer(bs, total, NextFrames(frames, f + 1, hits), true, hits)
  {
    hide NextFrames, FirstInCalls, PositionOf;
  }

  /** A forward search reports the least matching call behind its starting call, or from the start
      of its frame on if it has none, and nothing exactly when there is none. */
  lemma FindNextIsScan(
      trace: Trace, bs: seq<FrameBookmark>, frames: seq<Frame>, f: nat, from: Option<Call>, hits: set<nat>)
    requires Partition(trace, bs) && FramesFit(frames, bs) && f < |bs|
    ensures var start := if Anchored(frames, f, from) then from.value.index + 1 else bs[f].start;
      Answer(bs, |trace|, OnFindNext(frames, f, from, hits), true, hits) == FirstHit(hits, start, |trace|)
  {
    NextStartOf(trace, bs, f);
    assert FrameFits(frames[f], bs[f]) && |frames| == |bs|;
    hide NextFrames, FirstInCalls, PositionOf, FirstHit, Partition, FramesFit;
    if frames[f].loaded {
      var p: nat := if from.None? then 0 else PositionOf(frames[f].calls, from.value) + 1;
      FoundOrNext(bs, |trace|, frames, f, from, p, hits);
      hide OnFindNext, Answer;
      LoadedThenNext(trace, bs, frames, f, p, hits);
    } else {
      NextFramesIsScan(trace, bs, frames, f, hits);
    }
  }

  /** A backward search reports the greatest matching call before its starting call, or before the
      end of its frame if it has none.  A starting object that is not in the frame makes it skip
      the frame. */
  lemma FindPrevIsScan(
      trace: Trace, bs: seq<FrameBookmark>, frames: seq<Frame>, f: nat, from: Option<Call>, hits: set<nat>)
    requires Partition(trace, bs) && FramesFit(frames, bs) && f < |bs|
    ensures var end :=
        if Anchored(frames, f, from) then from.value.index
        else if frames[f].loaded && from.Some? then bs[f].start
        else bs[f].End();
      Answer(bs, |trace|, OnFindPrev(frames, f, from, hits), false, hits) == LastHit(hits, end)
  {
    NextStartOf(trace, bs, f);
    assert FrameFits(frames[f], bs[f]);
    if frames[f].loaded {
      LastInCallsIsScan(frames[f].calls, bs[f], PrevStart(frames[f].calls, from), hits);
      PrevFramesIsScan(trace, bs, frames, f, hits);
    } else {
      PrevFramesIsScan(trace, bs, frames, f + 1, hits);
    }
  }

  /** Whatever is searched for forwards from the call, the search goes on behind the call. */
  ghost predicate GoesOn(trace: Trace, bs: seq<FrameBookmark>, frames: seq<Frame>, f: nat, from: Call)
    requires f < |frames|
  {
    forall hits: set<nat> ::
      Answer(bs, |trace|, OnFindNext(frames, f, Some(from), hits), true, hits)
        == FirstHit(hits, from.index + 1, |trace|)
  }

  /** Whatever is searched for backwards from the call, the search goes on before the call. */
  ghost predicate GoesBack(trace: Trace, bs: seq<FrameBookmark>, frames: seq<Frame>, f: nat, from: Call)
    requires f < |frames|
  {
    forall hits: set<nat> ::
      Answer(bs, |trace|, OnFindPrev(frames, f, Some(from), hits), false, hits) == LastHit(hits, from.index)
  }

  lemma OnlyHit(i: nat, start: nat, end: nat)
    requires start <= i < end
    ensures FirstHit({i}, start, end) != FirstHit({i}, i + 1, end)
  {
    FirstHitIff({i}, start, end, Some(i));
  }

  lemma OnlyHitBefore(start: nat, i: nat)
    requires start < i
    ensures LastHit({start}, start) != LastHit({start}, i)
  {
    LastHitIff({start}, i, Some(start));
  }

  lemma OwnGoesOn(trace: Trace, bs: seq<FrameBookmark>, frames: seq<Frame>, f: nat, from: Call, hits: set<nat>)
    requires Partition(trace, bs) && FramesFit(frames, bs) && f < |bs|
    requires Anchored(frames, f, Some(from))
    ensures Answer(bs, |trace|, OnFindNext(frames, f, Some(from), hits), true, hits)
      == FirstHit(hits, from.index + 1, |trace|)
  {
    FindNextIsScan(trace, bs, frames, f, Some(from), hits);
  }

  lemma ForeignStartsAgain(trace: Trace, bs: seq<FrameBookmark>, frames: seq<Frame>, f: nat, from: Call)
    requires Partition(trace, bs) && FramesFit(frames, bs) && f < |bs|
    requires bs[f].start <= from.index < bs[f].End() && !Anchored(frames, f, Some(from))
    ensures var hits := {from.index};
      Answer(bs, |trace|, OnFindNext(frames, f, Some(from), hits), true, hits)
        != FirstHit(hits, from.index + 1, |trace|)
  {
    NextStartOf(trace, bs, f);
    hide OnFindNext, Answer, Anchored, FramesFit, Partition, FirstHit;
    FindNextIsScan(trace, bs, frames, f, Some(from), {from.index});
    OnlyHit(from.index, bs[f].start, |trace|);
  }

  /** Searching on from a call of a loaded frame does go on behind that call, whatever is searched
      for, if and only if the call object is the frame's own. */
  lemma GoesOnIffAnchored(trace: Trace, bs: seq<FrameBookmark>, frames: seq<Frame>, f: nat, from: Call)
    requires Partition(trace, bs) && FramesFit(frames, bs) && f < |bs| && frames[f].loaded
    requires bs[f].start <= from.index < bs[f].End()
    ensures GoesOn(trace, bs, frames, f, from) <==> PositionOf(frames[f].calls, from) >= 0
  {
    assert |frames| == |bs|;
    if PositionOf(frames[f].calls, from) >= 0 {
      hide OnFindNext, Answer, PositionOf, FramesFit, Partition, FirstHit;
      forall hits: set<nat>
        ensures Answer(bs, |trace|, OnFindNext(frames, f, Some(from), hits), true, hits)
          == FirstHit(hits, from.index + 1, |trace|)
      {
        OwnGoesOn(trace, bs, frames, f, from, hits);
      }
    } else {
      hide OnFindNext, Answer, PositionOf, FramesFit, Partition, FirstHit;
      ForeignStartsAgain(trace, bs, frames, f, from);
    }
  }

  /** Searching backwards from a call of a loaded frame does go on before that call, whatever is
      searched for, if and only if the call object is the frame's own or the call is the frame's
      first: from any other object the search skips the frame. */
  lemma GoesBackIffAnchored(trace: Trace, bs: seq<FrameBookmark>, frames: seq<Frame>, f: nat, from: Call)
    requires Partition(trace, bs) && FramesFit(frames, bs) && f < |bs| && frames[f].loaded
    requires bs[f].start <= from.index < bs[f].End()
    ensures GoesBack(trace, bs, frames, f, from)
      <==> PositionOf(frames[f].calls, from) >= 0 || from.index == bs[f].start
  {
    assert |frames| == |bs|;
    hide OnFindPrev, Answer, PositionOf, FramesFit, Partition, LastHit;
    if PositionOf(frames[f].calls, from) >= 0 || from.index == bs[f].start {
      forall hits: set<nat>
        ensures Answer(bs, |trace|, OnFindPrev(frames, f, Some(from), hits), false, hits) == LastHit(hits, from.index)
      {
        FindPrevIsScan(trace, bs, frames, f, Some(from), hits);
      }
    } else {
      var hits: set<nat> := {bs[f].start};
      FindPrevIsScan(trace, bs, frames, f, Some(from), hits);
      OnlyHitBefore(bs[f].start, from.index);
    }
  }
}
