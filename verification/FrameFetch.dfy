/** TraceLoader::fetchFrameContents: what a fetch of a frame builds is what the protocol posts. */
module FrameFetch {
  import opened Options
  import opened TraceScan
  import opened CallForest
  import opened FrameLoad
  import opened GuiTrace
  import LoaderProtocol

  /** The call objects of a loaded frame as the protocol sees them: their numbers, and the fetch that
      made them. */
  function Objects(all: seq<ApiTraceCall>, batch: nat): (calls: seq<Call>)
    ensures |calls| == |all|
  {
    seq(|all|, p requires 0 <= p < |all| => Call(all[p].index, batch, ""))
  }

  /** Loading frame k from its bookmark makes the calls that the protocol posts for it. */
  lemma ObjectsAreMade(trace: Trace, bs: seq<FrameBookmark>, k: nat, all: seq<ApiTraceCall>, batch: nat)
    requires Partition(trace, bs) && k < |bs| && |all| == bs[k].numberOfCalls && bs[k].End() <= |trace|
    requires CallsOk(all, trace[bs[k].start..bs[k].End()], bs[k].start)
    ensures Objects(all, batch) == LoaderProtocol.MakeCalls(bs[k], batch)
  {
    forall p | 0 <= p < |all| ensures all[p].index == bs[k].start + p {
      assert CallOk(all[p], trace[bs[k].start..bs[k].End()], bs[k].start, |all|, p);
    }
  }

  /** What is posted: the frame, its top-level calls by their places, and all its calls. */
  datatype Loaded = Loaded(frame: nat, topLevel: seq<nat>, calls: seq<Call>)

  /** Fetches frame k, of which the GUI has `frame`; the objects of this fetch are batch number
      `batch`.  The calls returned and posted are those of LoaderProtocol, and the top-level calls are
      the roots of the frame's forest. */
  method FetchFrameContents(trace: Trace, bs: seq<FrameBookmark>, frame: Frame, k: nat, batch: nat)
    returns (calls: seq<Call>, posted: Option<Loaded>)
    requires Partition(trace, bs) && k < |bs|
    ensures calls == if frame.loaded then frame.calls else LoaderProtocol.MakeCalls(bs[k], batch)
    ensures frame.loaded ==> posted == None
    ensures !frame.loaded ==> bs[k].End() <= |trace|
    ensures !frame.loaded ==>
      posted == Some(Loaded(k, Children(trace[bs[k].start..bs[k].End()], bs[k].numberOfCalls, None), calls))
  {
    if frame.loaded {
      return frame.calls, None;
    }
    NextStart(trace, bs, k);
    ScannedFrames(trace, bs, k);
    var numOfCalls := bs[k].numberOfCalls;
    if numOfCalls != 0 {
      var frameCalls := new FrameContents();
      var endFrameReached := frameCalls.Load(trace, bs[k].start, numOfCalls);
      ghost var cs := trace[bs[k].start..bs[k].End()];
      var topLevel := frameCalls.TopLevelToSend(cs, bs[k].start);
      calls := Objects(frameCalls.m_allCalls, batch);
      ObjectsAreMade(trace, bs, k, frameCalls.m_allCalls, batch);
      return calls, Some(Loaded(k, topLevel, calls));
    }
    return [], None;
  }

  /** In terms of a state of the protocol. */
  lemma FetchIsProtocol(bs: seq<FrameBookmark>, s: LoaderProtocol.System, k: nat, calls: seq<Call>)
    requires k < |bs| == |s.gui.frames| && bs[k].numberOfCalls > 0
    requires calls ==
      if s.gui.frames[k].loaded then s.gui.frames[k].calls else LoaderProtocol.MakeCalls(bs[k], s.nextBatch)
    ensures calls == LoaderProtocol.Fetched(bs, s, k)
    ensures LoaderProtocol.Fetch(bs, s, k).toGui ==
      s.toGui + if s.gui.frames[k].loaded then [] else [LoaderProtocol.Contents(k, calls)]
  {
  }
}
