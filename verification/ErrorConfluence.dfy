/** Reported errors reach their calls whatever the order in which reports and frame contents
    arrive. */
module ErrorConfluence {
  import opened Options
  import opened TraceScan
  import opened GuiTrace
  import opened LoaderProtocol

  /** The message of the last report for a call; empty if there is none. */
  function LastReport(log: seq<Report>, idx: int): string {
    if log == [] then ""
    else
      var last := log[|log| - 1];
      if last.callIndex == idx then last.message else LastReport(log[..|log| - 1], idx)
  }

  /** r is the last report for call idx. */
  predicate IsLast(log: seq<Report>, idx: int, k: nat)
    requires k < |log|
  {
    log[k].callIndex == idx && forall j :: k < j < |log| ==> log[j].callIndex != idx
  }

  lemma {:induction false} LastReportIs(log: seq<Report>, idx: int)
    ensures forall k :: 0 <= k < |log| && IsLast(log, idx, k) ==> LastReport(log, idx) == log[k].message
    ensures (forall k :: 0 <= k < |log| ==> log[k].callIndex != idx) ==> LastReport(log, idx) == ""
    decreases |log|
  {
    if log != [] {
      var init, last := log[..|log| - 1], log[|log| - 1];
      LastReportIs(init, idx);
      if last.callIndex != idx {
        forall k | 0 <= k < |init| && IsLast(log, idx, k) ensures IsLast(init, idx, k) {
        }
      }
    }
  }

  /** The reports of a run, in order. */
  function Log(run: seq<Event>): seq<Report> {
    if run == [] then []
    else
      var e := run[|run| - 1];
      Log(run[..|run| - 1]) + (if e.ErrorReported? then [e.report] else [])
  }

  /** The reports that wait for a frame that is not loaded. */
  function Pending(bs: seq<FrameBookmark>, loaded: set<nat>, log: seq<Report>): seq<QueuedError> {
    if log == [] then []
    else
      var r := log[|log| - 1];
      var f := Holder(bs, r.callIndex);
      Pending(bs, loaded, log[..|log| - 1])
      + (if f.Some? && f.value !in loaded then [QueuedError(f.value, r.callIndex, r.message)] else [])
  }

  ghost predicate TextsOk(bs: seq<FrameBookmark>, g: Gui, log: seq<Report>)
    requires |g.frames| == |bs|
  {
    forall k, p :: 0 <= k < |bs| && g.frames[k].loaded && 0 <= p < |g.frames[k].calls| ==>
      g.frames[k].calls[p].error == LastReport(log, bs[k].start + p)
  }

  ghost predicate ErrorSetOk(bs: seq<FrameBookmark>, g: Gui, log: seq<Report>) {
    forall i: nat :: i in g.errors <==>
      Holder(bs, i).Some? && Holder(bs, i).value in LoadedFrames(g) && LastReport(log, i) != ""
  }

  /** The queue holds exactly the pending reports, in order; every call of a loaded frame has the
      text of its last report; and m_errors are the calls of loaded frames with a text. */
  ghost predicate ErrorInv(bs: seq<FrameBookmark>, g: Gui, log: seq<Report>)
    requires |g.frames| == |bs|
  {
    && g.queued == Pending(bs, LoadedFrames(g), log)
    && TextsOk(bs, g, log)
    && ErrorSetOk(bs, g, log)
  }

  // ----- walking the queue -----

  lemma {:induction false} ApplyConcat(
      f: nat, calls: seq<Call>, errors: set<nat>, a: seq<QueuedError>, b: seq<QueuedError>)
    ensures var x := ApplyQueue(f, calls, errors, a);
      var y := ApplyQueue(f, x.calls, x.errors, b);
      ApplyQueue(f, calls, errors, a + b) == Applied(y.calls, y.errors, x.kept + y.kept)
    decreases |a|
  {
    if a == [] {
      assert a + b == b;
    } else {
      assert (a + b)[1..] == a[1..] + b;
      var q := a[0];
      var p := IndexOf(calls, q.callIndex);
      if q.frame == f && p.Some? {
        ApplyConcat(f, WithError(calls, p.value, q.message),
                    NoteError(errors, calls[p.value].index, q.message), a[1..], b);
      } else {
        ApplyConcat(f, calls, errors, a[1..], b);
      }
    }
  }

  lemma {:induction false} ApplyNone(f: nat, calls: seq<Call>, errors: set<nat>, queue: seq<QueuedError>)
    requires forall q :: q in queue ==> q.frame != f
    ensures ApplyQueue(f, calls, errors, queue) == Applied(calls, errors, queue)
    decreases |queue|
  {
    if queue != [] {
      assert queue[0] in queue;
      ApplyNone(f, calls, errors, queue[1..]);
    }
  }

  lemma {:induction false} PendingFrames(bs: seq<FrameBookmark>, loaded: set<nat>, log: seq<Report>)
    ensures forall q :: q in Pending(bs, loaded, log) ==> q.frame !in loaded
  {
    if log != [] {
      PendingFrames(bs, loaded, log[..|log| - 1]);
    }
  }

  /** Frame f's calls and the set of erroneous calls after the reports of log went to frame f. */
  ghost predicate FrameOkAfter(a: Applied, calls: seq<Call>, errors: set<nat>, b: FrameBookmark, log: seq<Report>) {
    && SameCalls(calls, a.calls)
    && (forall p :: 0 <= p < |a.calls| ==> a.calls[p].error == LastReport(log, b.start + p))
    && (forall i: nat :: i in a.errors <==> if b.start <= i < b.End() then LastReport(log, i) != "" else i in errors)
  }

  /** One more report for a call of frame f. */
  lemma ReportForFrame(
      a: Applied, calls: seq<Call>, errors: set<nat>, b: FrameBookmark, log: seq<Report>, r: Report, f: nat)
    requires CallsFit(calls, b) && FrameOkAfter(a, calls, errors, b, log)
    requires b.start <= r.callIndex < b.End()
    ensures var y := ApplyQueue(f, a.calls, a.errors, [QueuedError(f, r.callIndex, r.message)]);
      y.kept == [] && FrameOkAfter(y, calls, errors, b, log + [r])
  {
    SameCallsFit(calls, a.calls, b);
    IndexOfFits(a.calls, b.start, r.callIndex);
    var q := QueuedError(f, r.callIndex, r.message);
    var p := r.callIndex - b.start;
    ApplyOne(f, a.calls, a.errors, q, p);
    LogSnoc(log, r);
  }

  lemma ApplyOne(f: nat, calls: seq<Call>, errors: set<nat>, q: QueuedError, p: nat)
    requires q.frame == f && IndexOf(calls, q.callIndex) == Some(p)
    ensures ApplyQueue(f, calls, errors, [q])
      == Applied(WithError(calls, p, q.message), NoteError(errors, calls[p].index, q.message), [])
  {
    assert [q][1..] == [];
  }

  lemma LogSnoc(log: seq<Report>, r: Report)
    ensures forall i :: LastReport(log + [r], i) == if i == r.callIndex then r.message else LastReport(log, i)
  {
    assert (log + [r])[..|log|] == log;
  }

  lemma PendingSnoc(bs: seq<FrameBookmark>, loaded: set<nat>, log: seq<Report>, r: Report)
    ensures var f := Holder(bs, r.callIndex);
      Pending(bs, loaded, log + [r]) == Pending(bs, loaded, log)
        + (if f.Some? && f.value !in loaded then [QueuedError(f.value, r.callIndex, r.message)] else [])
  {
    assert (log + [r])[..|log|] == log;
  }

  /** A report for a call of another frame, or for none. */
  lemma ReportElsewhere(
      a: Applied, calls: seq<Call>, errors: set<nat>, b: FrameBookmark, log: seq<Report>, r: Report)
    requires CallsFit(calls, b) && FrameOkAfter(a, calls, errors, b, log)
    requires !(b.start <= r.callIndex < b.End())
    ensures FrameOkAfter(a, calls, errors, b, log + [r])
  {
    LogSnoc(log, r);
    hide LastReport;
  }

  lemma OtherKept(
      a: Applied, kept: seq<QueuedError>, calls: seq<Call>, errors: set<nat>, b: FrameBookmark, log: seq<Report>)
    requires FrameOkAfter(a, calls, errors, b, log)
    ensures FrameOkAfter(a.(kept := kept), calls, errors, b, log)
  {
    hide LastReport, SameCalls;
  }

  /** Walking a queue with one more error of frame f at its end. */
  lemma ApplyOwn(
      f: nat, calls: seq<Call>, errors: set<nat>, queue: seq<QueuedError>, b: FrameBookmark, log: seq<Report>,
      r: Report)
    requires CallsFit(calls, b) && FrameOkAfter(ApplyQueue(f, calls, errors, queue), calls, errors, b, log)
    requires b.start <= r.callIndex < b.End()
    ensures var a := ApplyQueue(f, calls, errors, queue + [QueuedError(f, r.callIndex, r.message)]);
      a.kept == ApplyQueue(f, calls, errors, queue).kept && FrameOkAfter(a, calls, errors, b, log + [r])
  {
    hide *;
    var x, q := ApplyQueue(f, calls, errors, queue), QueuedError(f, r.callIndex, r.message);
    ApplyConcat(f, calls, errors, queue, [q]);
    ReportForFrame(x, calls, errors, b, log, r, f);
    assert x.kept + [] == x.kept;
    OtherKept(ApplyQueue(f, x.calls, x.errors, [q]), x.kept, calls, errors, b, log + [r]);
  }

  /** And with one more error of another frame. */
  lemma ApplyOther(f: nat, calls: seq<Call>, errors: set<nat>, queue: seq<QueuedError>, q: QueuedError)
    requires q.frame != f
    ensures var a := ApplyQueue(f, calls, errors, queue);
      ApplyQueue(f, calls, errors, queue + [q]) == a.(kept := a.kept + [q])
  {
    hide *;
    var a := ApplyQueue(f, calls, errors, queue);
    ApplyConcat(f, calls, errors, queue, [q]);
    ApplyNone(f, a.calls, a.errors, [q]);
  }

  /** Walking the queue after one more report. */
  lemma ApplyOneMore(
      trace: Trace, bs: seq<FrameBookmark>, f: nat, calls: seq<Call>, errors: set<nat>, loaded: set<nat>,
      log: seq<Report>, r: Report)
    requires Partition(trace, bs) && f < |bs| && f !in loaded && CallsFit(calls, bs[f])
    requires var a := ApplyQueue(f, calls, errors, Pending(bs, loaded, log));
      a.kept == Pending(bs, loaded + {f}, log) && FrameOkAfter(a, calls, errors, bs[f], log)
    ensures var a := ApplyQueue(f, calls, errors, Pending(bs, loaded, log + [r]));
      a.kept == Pending(bs, loaded + {f}, log + [r]) && FrameOkAfter(a, calls, errors, bs[f], log + [r])
  {
    hide *;
    PendingSnoc(bs, loaded, log, r);
    PendingSnoc(bs, loaded + {f}, log, r);
    HolderInFrame(trace, bs, f, r.callIndex);
    var h, pending := Holder(bs, r.callIndex), Pending(bs, loaded, log);
    var a := ApplyQueue(f, calls, errors, pending);
    assert pending + [] == pending && a.kept + [] == a.kept;
    if h == Some(f) {
      ApplyOwn(f, calls, errors, pending, bs[f], log, r);
    } else {
      ReportElsewhere(a, calls, errors, bs[f], log, r);
      if h.Some? && h.value !in loaded {
        var q := QueuedError(h.value, r.callIndex, r.message);
        ApplyOther(f, calls, errors, pending, q);
        OtherKept(a, a.kept + [q], calls, errors, bs[f], log + [r]);
      }
    }
  }

  /** When frame f is loaded, walking the queue leaves what is pending for the other frames, and
      f's calls carry their last reports. */
  lemma {:induction false} ApplyPending(
      trace: Trace, bs: seq<FrameBookmark>, f: nat, calls: seq<Call>, errors: set<nat>, loaded: set<nat>,
      log: seq<Report>)
    requires Partition(trace, bs) && f < |bs| && f !in loaded && CallsFit(calls, bs[f])
    requires forall p :: 0 <= p < |calls| ==> calls[p].error == ""
    requires forall i: nat :: bs[f].start <= i < bs[f].End() ==> i !in errors
    ensures var a := ApplyQueue(f, calls, errors, Pending(bs, loaded, log));
      a.kept == Pending(bs, loaded + {f}, log) && FrameOkAfter(a, calls, errors, bs[f], log)
    decreases |log|
  {
    if log == [] {
      assert Pending(bs, loaded, log) == [] && Pending(bs, loaded + {f}, log) == [];
    } else {
      var init, r := log[..|log| - 1], log[|log| - 1];
      assert log == init + [r];
      ApplyPending(trace, bs, f, calls, errors, loaded, init);
      hide *;
      ApplyOneMore(trace, bs, f, calls, errors, loaded, init, r);
    }
  }

  lemma HolderInFrame(trace: Trace, bs: seq<FrameBookmark>, f: nat, idx: int)
    requires Partition(trace, bs) && f < |bs|
    ensures Holder(bs, idx) == Some(f) <==> bs[f].start <= idx < bs[f].End()
  {
    if bs[f].start <= idx < bs[f].End() {
      assert bs[..|bs|] == bs;
      HolderMeaning(trace, bs, |bs|, f, idx);
    }
  }

  // ----- every event keeps the errors right -----

  /** A report for no call, or for a call of an unloaded frame, concerns no loaded frame. */
  lemma UnloadedReport(trace: Trace, bs: seq<FrameBookmark>, g: Gui, log: seq<Report>, r: Report)
    requires Partition(trace, bs) && FramesFit(g.frames, bs) && TextsOk(bs, g, log) && ErrorSetOk(bs, g, log)
    requires Holder(bs, r.callIndex).Some? ==> Holder(bs, r.callIndex).value !in LoadedFrames(g)
    ensures TextsOk(bs, g, log + [r]) && ErrorSetOk(bs, g, log + [r])
  {
    LogSnoc(log, r);
    forall k, p | 0 <= k < |bs| && g.frames[k].loaded && 0 <= p < |g.frames[k].calls|
      ensures g.frames[k].calls[p].error == LastReport(log + [r], bs[k].start + p)
    {
      assert FrameFits(g.frames[k], bs[k]);
      HolderInFrame(trace, bs, k, bs[k].start + p);
    }
  }

  /** g after an error was set on the call numbered idx of its loaded frame f. */
  function Corrected(g: Gui, f: nat, p: nat, idx: nat, message: string): Gui
    requires f < |g.frames| && p < |g.frames[f].calls|
  {
    g.(frames := g.frames[f := g.frames[f].(calls := WithError(g.frames[f].calls, p, message))],
       errors := NoteError(g.errors, idx, message))
  }

  lemma CorrectedTexts(trace: Trace, bs: seq<FrameBookmark>, g: Gui, log: seq<Report>, r: Report, f: nat)
    requires Partition(trace, bs) && FramesFit(g.frames, bs) && TextsOk(bs, g, log)
    requires f < |bs| && g.frames[f].loaded && bs[f].start <= r.callIndex < bs[f].End()
    requires r.callIndex - bs[f].start < |g.frames[f].calls|
    ensures TextsOk(bs, Corrected(g, f, r.callIndex - bs[f].start, r.callIndex, r.message), log + [r])
  {
    var g' := Corrected(g, f, r.callIndex - bs[f].start, r.callIndex, r.message);
    LogSnoc(log, r);
    HolderInFrame(trace, bs, f, r.callIndex);
    forall k, p | 0 <= k < |bs| && g'.frames[k].loaded && 0 <= p < |g'.frames[k].calls|
      ensures g'.frames[k].calls[p].error == LastReport(log + [r], bs[k].start + p)
    {
      assert FrameFits(g.frames[k], bs[k]);
      HolderInFrame(trace, bs, k, bs[k].start + p);
      assert g.frames[k].loaded && p < |g.frames[k].calls|;
    }
  }

  lemma CorrectedSet(trace: Trace, bs: seq<FrameBookmark>, g: Gui, log: seq<Report>, r: Report, f: nat)
    requires Partition(trace, bs) && |g.frames| == |bs| && ErrorSetOk(bs, g, log)
    requires f < |bs| && g.frames[f].loaded && bs[f].start <= r.callIndex < bs[f].End()
    requires r.callIndex - bs[f].start < |g.frames[f].calls|
    ensures var g' := Corrected(g, f, r.callIndex - bs[f].start, r.callIndex, r.message);
      LoadedFrames(g') == LoadedFrames(g) && ErrorSetOk(bs, g', log + [r])
  {
    LogSnoc(log, r);
    HolderInFrame(trace, bs, f, r.callIndex);
    var g' := Corrected(g, f, r.callIndex - bs[f].start, r.callIndex, r.message);
    assert LoadedFrames(g') == LoadedFrames(g);
  }

  lemma OnErrorLoaded(g: Gui, idx: int, message: string, f: nat, p: nat)
    requires FrameOf(g.frames, idx) == Some(f) && g.frames[f].loaded && IndexOf(g.frames[f].calls, idx) == Some(p)
    ensures idx >= 0 && OnError(g, idx, message).0 == Corrected(g, f, p, idx, message)
  {
  }

  lemma OnErrorUnloaded(g: Gui, idx: int, message: string)
    requires FrameOf(g.frames, idx).Some? ==> !g.frames[FrameOf(g.frames, idx).value].loaded
    ensures var g', f := OnError(g, idx, message).0, FrameOf(g.frames, idx);
      && g'.frames == g.frames && g'.errors == g.errors
      && g'.queued == g.queued + (if f.Some? then [QueuedError(f.value, idx, message)] else [])
  {
    assert g.queued + [] == g.queued;
  }

  lemma ReportKeeps(trace: Trace, bs: seq<FrameBookmark>, s: System, log: seq<Report>, r: Report)
    requires Partition(trace, bs) && Inv(bs, s) && ErrorInv(bs, s.gui, log)
    ensures |OnError(s.gui, r.callIndex, r.message).0.frames| == |bs|
    ensures ErrorInv(bs, OnError(s.gui, r.callIndex, r.message).0, log + [r])
  {
    hide OnError;
    hide Pending;
    hide LastReport;
    var g := s.gui;
    var h := FrameOf(g.frames, r.callIndex);
    PendingSnoc(bs, LoadedFrames(g), log, r);
    HolderIsFrameOf(trace, bs, g.frames, r.callIndex);
    if h.Some? && g.frames[h.value].loaded {
      assert FrameFits(g.frames[h.value], bs[h.value]);
      IndexOfFits(g.frames[h.value].calls, bs[h.value].start, r.callIndex);
      OnErrorLoaded(g, r.callIndex, r.message, h.value, r.callIndex - bs[h.value].start);
      CorrectedTexts(trace, bs, g, log, r, h.value);
      CorrectedSet(trace, bs, g, log, r, h.value);
      assert g.queued + [] == g.queued;
    } else {
      OnErrorUnloaded(g, r.callIndex, r.message);
      UnloadedReport(trace, bs, g, log, r);
    }
  }

  lemma ArrivalKeeps(trace: Trace, bs: seq<FrameBookmark>, s: System, log: seq<Report>, f: nat, batch: nat)
    requires Partition(trace, bs) && Inv(bs, s) && ErrorInv(bs, s.gui, log) && f < |bs|
    ensures ErrorInv(bs, OnFrameLoaded(s.gui, f, MakeCalls(bs[f], batch)), log)
  {
    var g, calls := s.gui, MakeCalls(bs[f], batch);
    var g' := OnFrameLoaded(g, f, calls);
    MadeCallsFit(bs[f], batch);
    FrameLoadedKeeps(bs, s, f, calls);
    PendingFrames(bs, LoadedFrames(g), log);
    if g.frames[f].loaded {
      ApplyNone(f, g.frames[f].calls, g.errors, g.queued);
      assert LoadedFrames(g) + {f} == LoadedFrames(g);
      assert g'.frames == g.frames;
    } else {
      forall i: nat | bs[f].start <= i < bs[f].End() ensures i !in g.errors {
        HolderInFrame(trace, bs, f, i);
      }
      ApplyPending(trace, bs, f, calls, g.errors, LoadedFrames(g), log);
      var a := ApplyQueue(f, calls, g.errors, g.queued);
      assert g'.frames == g.frames[f := Frame(g.frames[f].callsToLoad, true, a.calls)];
      NewlyLoaded(trace, bs, g, g', a, calls, log, f);
    }
  }

  lemma NewlyLoaded(
      trace: Trace, bs: seq<FrameBookmark>, g: Gui, g': Gui, a: Applied, calls: seq<Call>, log: seq<Report>, f: nat)
    requires Partition(trace, bs) && |g.frames| == |bs| && f < |bs| && f !in LoadedFrames(g)
    requires TextsOk(bs, g, log) && ErrorSetOk(bs, g, log)
    requires FrameOkAfter(a, calls, g.errors, bs[f], log)
    requires g'.frames == g.frames[f := Frame(g.frames[f].callsToLoad, true, a.calls)] && g'.errors == a.errors
    ensures TextsOk(bs, g', log) && ErrorSetOk(bs, g', log)
  {
    assert LoadedFrames(g') == LoadedFrames(g) + {f};
    forall i: nat
      ensures i in g'.errors <==>
        Holder(bs, i).Some? && Holder(bs, i).value in LoadedFrames(g') && LastReport(log, i) != ""
    {
      HolderInFrame(trace, bs, f, i);
    }
  }

  /** What a step does to frames and errors. */
  lemma StepOf(trace: Trace, bs: seq<FrameBookmark>, s: System, e: Event)
    requires |bs| == |s.gui.frames|
    ensures var g, g' := s.gui, Step(trace, bs, s, e).gui;
      if e.ErrorReported? then g' == OnError(g, e.report.callIndex, e.report.message).0
      else if e.GuiTurn? && s.toGui != [] && s.toGui[0].Contents? && s.toGui[0].frame < |bs| then
        g' == OnFrameLoaded(g, s.toGui[0].frame, s.toGui[0].calls)
      else g'.frames == g.frames && g'.queued == g.queued && g'.errors == g.errors
  {
    hide OnError, OnFrameLoaded, OnFindNext, OnFindPrev;
  }

  lemma StepErrors(trace: Trace, bs: seq<FrameBookmark>, s: System, log: seq<Report>, e: Event)
    requires Partition(trace, bs) && Inv(bs, s) && ErrorInv(bs, s.gui, log)
    ensures |Step(trace, bs, s, e).gui.frames| == |bs|
    ensures ErrorInv(bs, Step(trace, bs, s, e).gui, log + (if e.ErrorReported? then [e.report] else []))
  {
    StepKeepsFrameCount(trace, bs, s, e);
    StepOf(trace, bs, s, e);
    assert log + [] == log;
    hide Step, OnError, OnFrameLoaded, LastReport, Pending, Partition;
    if e.ErrorReported? {
      ReportKeeps(trace, bs, s, log, e.report);
    } else if e.GuiTurn? && s.toGui != [] && s.toGui[0].Contents? {
      var m := s.toGui[0];
      assert ReplyOk(bs, m);
      var batch: nat :| m.calls == MakeCalls(bs[m.frame], batch);
      ArrivalKeeps(trace, bs, s, log, m.frame, batch);
    }
  }

  lemma {:induction false} RunErrors(trace: Trace, bs: seq<FrameBookmark>, run: seq<Event>)
    requires Partition(trace, bs)
    ensures ErrorInv(bs, After(trace, bs, run).gui, Log(run))
    decreases |run|
  {
    if run != [] {
      var init := run[..|run| - 1];
      RunErrors(trace, bs, init);
      RunKeeps(trace, bs, init);
      StepErrors(trace, bs, After(trace, bs, init), Log(init), run[|run| - 1]);
    }
  }

  // ----- when the reported frames are loaded -----

  /** Every frame with a reported call is loaded; anything may still be under way. */
  ghost predicate ReportedLoaded(bs: seq<FrameBookmark>, g: Gui, log: seq<Report>) {
    forall r :: r in log && Holder(bs, r.callIndex).Some? ==> Holder(bs, r.callIndex).value in LoadedFrames(g)
  }

  /** The error text shown for a call. */
  function ErrorText(bs: seq<FrameBookmark>, g: Gui, idx: int): string
    requires |g.frames| == |bs|
  {
    match Holder(bs, idx)
    case None => ""
    case Some(f) =>
      var p := idx - bs[f].start;
      if g.frames[f].loaded && p < |g.frames[f].calls| then g.frames[f].calls[p].error else ""
  }

  /** Every call shows its last report, and m_errors are exactly the calls that show one. */
  ghost predicate Settled(trace: Trace, bs: seq<FrameBookmark>, g: Gui, log: seq<Report>)
    requires |g.frames| == |bs|
  {
    && (forall idx :: 0 <= idx < |trace| ==> ErrorText(bs, g, idx) == LastReport(log, idx))
    && (forall i: nat :: i in g.errors <==> i < |trace| && LastReport(log, i) != "")
  }

  lemma {:induction false} PendingEmptyIff(bs: seq<FrameBookmark>, g: Gui, log: seq<Report>)
    ensures Pending(bs, LoadedFrames(g), log) == [] <==> ReportedLoaded(bs, g, log)
    decreases |log|
  {
    if log != [] {
      var init, last := log[..|log| - 1], log[|log| - 1];
      PendingEmptyIff(bs, g, init);
      assert forall r :: r in log <==> r in init || r == last by {
        assert log == init + [last];
      }
    }
  }

  lemma {:induction false} NothingPending(bs: seq<FrameBookmark>, loaded: set<nat>, log: seq<Report>, idx: int)
    requires Pending(bs, loaded, log) == [] && Holder(bs, idx).Some? && Holder(bs, idx).value !in loaded
    ensures LastReport(log, idx) == ""
  {
    if log != [] {
      NothingPending(bs, loaded, log[..|log| - 1], idx);
    }
  }

  /** One call, when no error is pending. */
  lemma SettledAt(trace: Trace, bs: seq<FrameBookmark>, g: Gui, log: seq<Report>, idx: int)
    requires Partition(trace, bs) && FramesFit(g.frames, bs) && ErrorInv(bs, g, log)
    requires Pending(bs, LoadedFrames(g), log) == []
    ensures 0 <= idx < |trace| ==> ErrorText(bs, g, idx) == LastReport(log, idx)
    ensures idx >= 0 ==> (idx in g.errors <==> idx < |trace| && LastReport(log, idx) != "")
  {
    FrameOfMeaning(trace, bs, g.frames, idx);
    HolderIsFrameOf(trace, bs, g.frames, idx);
    if 0 <= idx < |trace| {
      var f := Holder(bs, idx).value;
      HolderInFrame(trace, bs, f, idx);
      assert FrameFits(g.frames[f], bs[f]);
      hide FrameOf, Partition, Pending, LastReport, Holder, FramesFit, ErrorText, FrameFits;
      if f !in LoadedFrames(g) {
        NothingPending(bs, LoadedFrames(g), log, idx);
      }
      SettledHeld(bs, g, log, f, idx);
    } else {
      hide *;
      NotSettled(bs, g, log, idx);
    }
  }

  /** A call of frame f. */
  lemma SettledHeld(bs: seq<FrameBookmark>, g: Gui, log: seq<Report>, f: nat, idx: nat)
    requires |g.frames| == |bs| && f < |bs| && FrameFits(g.frames[f], bs[f])
    requires Holder(bs, idx) == Some(f) && bs[f].start <= idx < bs[f].End()
    requires ErrorInv(bs, g, log) && (f !in LoadedFrames(g) ==> LastReport(log, idx) == "")
    ensures ErrorText(bs, g, idx) == LastReport(log, idx)
    ensures idx in g.errors <==> LastReport(log, idx) != ""
  {
    hide Holder, LastReport, Pending;
  }

  /** A number that no frame holds. */
  lemma NotSettled(bs: seq<FrameBookmark>, g: Gui, log: seq<Report>, idx: int)
    requires |g.frames| == |bs| && ErrorInv(bs, g, log) && Holder(bs, idx) == None
    ensures idx >= 0 ==> idx !in g.errors
  {
    hide Holder, LastReport, Pending;
  }

  /** In every run: the queue is empty if and only if the reported frames are loaded, and then every
      call shows the message of its last report and m_errors are exactly the calls that show one. */
  lemma ReportedErrors(trace: Trace, bs: seq<FrameBookmark>, run: seq<Event>)
    requires Partition(trace, bs)
    ensures var g := After(trace, bs, run).gui;
      && (g.queued == [] <==> ReportedLoaded(bs, g, Log(run)))
      && (ReportedLoaded(bs, g, Log(run)) ==> Settled(trace, bs, g, Log(run)))
  {
    var g := After(trace, bs, run).gui;
    RunKeeps(trace, bs, run);
    RunErrors(trace, bs, run);
    PendingEmptyIff(bs, g, Log(run));
    if g.queued == [] {
      hide Partition, FramesFit, ErrorInv, LastReport, ErrorText, Pending;
      forall idx: int
        ensures 0 <= idx < |trace| ==> ErrorText(bs, g, idx) == LastReport(Log(run), idx)
        ensures idx >= 0 ==> (idx in g.errors <==> idx < |trace| && LastReport(Log(run), idx) != "")
      {
        SettledAt(trace, bs, g, Log(run), idx);
      }
    }
  }

  /** Two runs whose last reports agree show the same errors once their reported frames are loaded,
      in whatever order reports, requests and contents were interleaved. */
  lemma Confluence(trace: Trace, bs: seq<FrameBookmark>, run: seq<Event>, run': seq<Event>)
    requires Partition(trace, bs)
    requires ReportedLoaded(bs, After(trace, bs, run).gui, Log(run))
    requires ReportedLoaded(bs, After(trace, bs, run').gui, Log(run'))
    requires forall idx :: 0 <= idx < |trace| ==> LastReport(Log(run), idx) == LastReport(Log(run'), idx)
    ensures After(trace, bs, run).gui.errors == After(trace, bs, run').gui.errors
    ensures forall idx :: 0 <= idx < |trace| ==>
      ErrorText(bs, After(trace, bs, run).gui, idx) == ErrorText(bs, After(trace, bs, run').gui, idx)
  {
    ReportedErrors(trace, bs, run);
    ReportedErrors(trace, bs, run');
    hide After, ErrorText, LastReport, ReportedLoaded, Partition;
    var g, g' := After(trace, bs, run).gui, After(trace, bs, run').gui;
    assert forall i: nat :: i in g.errors <==> i in g'.errors;
  }

  // ----- when nothing is under way -----

  predicate Quiescent(s: System) { s.toLoader == [] && s.toGui == [] }

  lemma QueueEmpty(bs: seq<FrameBookmark>, s: System)
    requires QueueOk(bs, s) && s.gui.loading == {}
    ensures s.gui.queued == []
  {
    if |s.gui.queued| > 0 {
      QueuedLoading(bs, s, 0);
    }
  }

  lemma QueuedLoading(bs: seq<FrameBookmark>, s: System, i: nat)
    requires QueueOk(bs, s) && i < |s.gui.queued|
    ensures s.gui.queued[i].frame in s.gui.loading
  {
    assert s.gui.queued[i] in s.gui.queued;
  }

  /** Once nothing is under way, no frame is loading and the reported frames are loaded. */
  lemma QuiescentErrors(trace: Trace, bs: seq<FrameBookmark>, run: seq<Event>)
    requires Partition(trace, bs) && Quiescent(After(trace, bs, run))
    ensures var g := After(trace, bs, run).gui;
      g.loading == {} && g.queued == [] && ReportedLoaded(bs, g, Log(run)) && Settled(trace, bs, g, Log(run))
  {
    var s := After(trace, bs, run);
    RunKeeps(trace, bs, run);
    assert s.gui.loading == {};
    QueueEmpty(bs, s);
    ReportedErrors(trace, bs, run);
  }

  lemma LogNext(run: seq<Event>, e: Event)
    ensures Log(run + [e]) == Log(run) + (if e.ErrorReported? then [e.report] else [])
  {
    assert (run + [e])[..|run|] == run;
  }

  /** The thread that has a signal waiting, the loader first. */
  function Turn(s: System): Event { if s.toLoader != [] then LoaderTurn else GuiTurn }

  lemma TurnTakes(trace: Trace, bs: seq<FrameBookmark>, s: System)
    requires |bs| == |s.gui.frames| && !Quiescent(s)
    ensures var s' := Step(trace, bs, s, Turn(s));
      || |s'.toLoader| < |s.toLoader|
      || (|s'.toLoader| == |s.toLoader| && |s'.toGui| < |s.toGui|)
  {
    if s.toLoader != [] {
      HandleKeepsRequests(trace, bs, s.(toLoader := s.toLoader[1..]), s.toLoader[0]);
    }
    hide Handle, OnFrameLoaded;
  }

  /** A thread's turn takes one signal off its queue; the GUI's turn sends nothing to the loader. */
  lemma TurnProgress(trace: Trace, bs: seq<FrameBookmark>, run: seq<Event>)
    requires !Quiescent(After(trace, bs, run))
    ensures var s := After(trace, bs, run);
      var s' := After(trace, bs, run + [Turn(s)]);
      || |s'.toLoader| < |s.toLoader|
      || (|s'.toLoader| == |s.toLoader| && |s'.toGui| < |s.toGui|)
    ensures Log(run + [Turn(After(trace, bs, run))]) == Log(run)
  {
    AfterSnoc(trace, bs, run, Turn(After(trace, bs, run)));
    LogNext(run, Turn(After(trace, bs, run)));
    TurnTakes(trace, bs, After(trace, bs, run));
    assert Log(run) + [] == Log(run);
    hide Step, After, Log;
  }

  /** From any point of any run, turns of the two threads alone lead to quiescence. */
  lemma {:induction false} Drains(trace: Trace, bs: seq<FrameBookmark>, run: seq<Event>) returns (more: seq<Event>)
    ensures Quiescent(After(trace, bs, run + more)) && Log(run + more) == Log(run)
    decreases |After(trace, bs, run).toLoader|, |After(trace, bs, run).toGui|
  {
    hide Step;
    hide After;
    var s := After(trace, bs, run);
    more := [];
    assert run + [] == run;
    if !Quiescent(s) {
      var e := Turn(s);
      TurnProgress(trace, bs, run);
      var rest := Drains(trace, bs, run + [e]);
      more := [e] + rest;
      assert run + more == run + [e] + rest;
    }
  }
}
