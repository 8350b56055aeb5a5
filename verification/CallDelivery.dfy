/** What reaches the main window: the frame a reply names is loaded by then, a frame's calls are
    set once, and a found call is an object of its frame exactly when the loader had not posted
    other contents of that frame before. */
module CallDelivery {
  import opened Options
  import opened SearchSpec
  import opened TraceScan
  import opened GuiTrace
  import opened LoaderProtocol
  import opened TraceSearch

  /** In every run, the reply that the GUI is about to handle, unless it is contents or "not found",
      names a frame, and that frame is loaded. */
  lemma DeliveredLoaded(trace: Trace, bs: seq<FrameBookmark>, run: seq<Event>)
    requires Partition(trace, bs)
    ensures var s := After(trace, bs, run);
      s.toGui != [] && !s.toGui[0].Contents? && !s.toGui[0].SearchNotFound? ==>
        && Named(bs, s.toGui[0]).Some?
        && Named(bs, s.toGui[0]).value < |bs|
        && s.gui.frames[Named(bs, s.toGui[0]).value].loaded
  {
    RunKeeps(trace, bs, run);
    var s := After(trace, bs, run);
    if s.toGui != [] {
      assert ReplyOk(bs, s.toGui[0]);
    }
  }

  /** The contents of frame g that arrive first. */
  function FirstArriving(msgs: seq<Reply>, g: nat): Option<seq<Call>>
    decreases |msgs|
  {
    if msgs == [] then None
    else if msgs[0].Contents? && msgs[0].frame == g then Some(msgs[0].calls)
    else FirstArriving(msgs[1..], g)
  }

  /** The calls that frame g has, or will have once what is under way has arrived. */
  function Destined(s: System, g: nat): Option<seq<Call>>
    requires g < |s.gui.frames|
  {
    if s.gui.frames[g].loaded then Some(s.gui.frames[g].calls) else FirstArriving(s.toGui, g)
  }

  predicate SameDestined(a: Option<seq<Call>>, b: Option<seq<Call>>) {
    a.Some? ==> b.Some? && SameCalls(a.value, b.value)
  }

  lemma {:induction false} FirstArrivingConcat(a: seq<Reply>, b: seq<Reply>, g: nat)
    ensures FirstArriving(a + b, g) == if FirstArriving(a, g).Some? then FirstArriving(a, g) else FirstArriving(b, g)
    ensures FirstArriving(a, g).Some? <==> g in Arriving(a)
    decreases |a|
  {
    if a == [] {
      assert a + b == b;
    } else {
      assert (a + b)[1..] == a[1..] + b;
      FirstArrivingConcat(a[1..], b, g);
    }
  }

  lemma SameCallsRefl(calls: seq<Call>)
    ensures SameCalls(calls, calls)
  {
  }

  lemma {:induction false} ApplyQueueSame(f: nat, calls: seq<Call>, errors: set<nat>, queue: seq<QueuedError>)
    ensures SameCalls(calls, ApplyQueue(f, calls, errors, queue).calls)
    decreases |queue|
  {
    if queue != [] {
      var q := queue[0];
      var p := IndexOf(calls, q.callIndex);
      if q.frame == f && p.Some? {
        ApplyQueueSame(f, WithError(calls, p.value, q.message),
                       NoteError(errors, calls[p.value].index, q.message), queue[1..]);
      } else {
        ApplyQueueSame(f, calls, errors, queue[1..]);
      }
    }
  }

  lemma FetchStable(bs: seq<FrameBookmark>, s: System, h: nat, g: nat)
    requires h < |bs| == |s.gui.frames| && g < |bs|
    ensures SameDestined(Destined(s, g), Destined(Fetch(bs, s, h), g))
  {
    if Destined(s, g).Some? {
      SameCallsRefl(Destined(s, g).value);
    }
    FirstArrivingConcat(s.toGui, [Contents(h, MakeCalls(bs[h], s.nextBatch))], g);
  }

  lemma PostStable(s: System, m: Reply, g: nat)
    requires g < |s.gui.frames|
    ensures SameDestined(Destined(s, g), Destined(Post(s, m), g))
  {
    if Destined(s, g).Some? {
      SameCallsRefl(Destined(s, g).value);
    }
    FirstArrivingConcat(s.toGui, [m], g);
  }

  lemma SameDestinedTrans(a: Option<seq<Call>>, b: Option<seq<Call>>, c: Option<seq<Call>>)
    requires SameDestined(a, b) && SameDestined(b, c)
    ensures SameDestined(a, c)
  {
  }

  lemma FetchCallStable(bs: seq<FrameBookmark>, s: System, idx: int, search: bool, g: nat)
    requires g < |bs| == |s.gui.frames|
    ensures SameDestined(Destined(s, g), Destined(FetchCall(bs, s, idx, search), g))
  {
    if Holder(bs, idx).Some? {
      var h := Holder(bs, idx).value;
      FetchStable(bs, s, h, g);
      var calls := Fetched(bs, s, h);
      if IndexOf(calls, idx).Some? {
        var c := calls[IndexOf(calls, idx).value];
        PostStable(Fetch(bs, s, h), if search then SearchFound(c) else CallFound(c), g);
      }
    } else if Destined(s, g).Some? {
      SameCallsRefl(Destined(s, g).value);
    }
  }

  lemma HandleStable(trace: Trace, bs: seq<FrameBookmark>, s: System, r: Request, g: nat)
    requires g < |bs| == |s.gui.frames|
    ensures SameDestined(Destined(s, g), Destined(Handle(trace, bs, s, r), g))
  {
    if Destined(s, g).Some? {
      SameCallsRefl(Destined(s, g).value);
    }
    match r
    case LoadFrame(f) => if f < |bs| { FetchStable(bs, s, f, g); }
    case FindFrameStart(f) =>
      if f < |bs| {
        FetchStable(bs, s, f, g);
        PostStable(Fetch(bs, s, f), FrameStartFound(f), g);
      }
    case FindFrameEnd(f) =>
      if f < |bs| {
        FetchStable(bs, s, f, g);
        PostStable(Fetch(bs, s, f), FrameEndFound(f), g);
      }
    case FindCallIndex(idx) => FetchCallStable(bs, s, idx, false, g);
    case Search(forward, f, hits) =>
      if f < |bs| {
        var c := if forward then FirstHit(hits, bs[f].start, |trace|) else LastHit(hits, bs[f].End());
        if c.Some? {
          FetchCallStable(bs, s, c.value, true, g);
        } else {
          PostStable(s, SearchNotFound, g);
        }
      }
  }

  lemma GuiTurnStable(trace: Trace, bs: seq<FrameBookmark>, s: System, g: nat)
    requires g < |bs| == |s.gui.frames|
    requires forall i :: 0 <= i < |s.toGui| ==> ReplyOk(bs, s.toGui[i])
    ensures |Step(trace, bs, s, GuiTurn).gui.frames| == |bs|
    ensures SameDestined(Destined(s, g), Destined(Step(trace, bs, s, GuiTurn), g))
  {
    if Destined(s, g).Some? {
      SameCallsRefl(Destined(s, g).value);
    }
    if s.toGui != [] && s.toGui[0].Contents? {
      var m := s.toGui[0];
      assert ReplyOk(bs, m);
      ApplyQueueSame(m.frame, Installed(s.gui.frames[m.frame], m.calls).calls, s.gui.errors, s.gui.queued);
    }
  }

  lemma ErrorStable(g: Gui, idx: int, message: string, k: nat)
    requires k < |g.frames|
    ensures var g' := OnError(g, idx, message).0;
      |g'.frames| == |g.frames| && g'.frames[k].loaded == g.frames[k].loaded
      && SameCalls(g.frames[k].calls, g'.frames[k].calls)
  {
  }

  /** Whatever happens, the calls that a frame has or is going to have stay the same objects; so
      a loaded frame keeps its calls for ever. */
  lemma StepStable(trace: Trace, bs: seq<FrameBookmark>, s: System, e: Event, g: nat)
    requires Inv(bs, s) && g < |bs|
    ensures |Step(trace, bs, s, e).gui.frames| == |bs|
    ensures SameDestined(Destined(s, g), Destined(Step(trace, bs, s, e), g))
    ensures s.gui.frames[g].loaded ==> Step(trace, bs, s, e).gui.frames[g].loaded
  {
    StepKeepsFrameCount(trace, bs, s, e);
    if Destined(s, g).Some? {
      SameCallsRefl(Destined(s, g).value);
    }
    hide OnFindNext, OnFindPrev, OnError, OnFrameLoaded, Handle;
    if e.GuiTurn? {
      GuiTurnStable(trace, bs, s, g);
    } else if e.LoaderTurn? {
      if s.toLoader != [] {
        HandleStable(trace, bs, s.(toLoader := s.toLoader[1..]), s.toLoader[0], g);
      }
    } else if e.ErrorReported? {
      ErrorStable(s.gui, e.report.callIndex, e.report.message, g);
    }
  }

  lemma {:induction false} RunStable(trace: Trace, bs: seq<FrameBookmark>, run: seq<Event>, more: seq<Event>, g: nat)
    requires Partition(trace, bs) && g < |bs|
    ensures SameDestined(Destined(After(trace, bs, run), g), Destined(After(trace, bs, run + more), g))
    ensures After(trace, bs, run).gui.frames[g].loaded ==> After(trace, bs, run + more).gui.frames[g].loaded
    decreases |more|
  {
    if more == [] {
      assert run + more == run;
      if Destined(After(trace, bs, run), g).Some? {
        SameCallsRefl(Destined(After(trace, bs, run), g).value);
      }
    } else {
      hide *;
      var init, e := more[..|more| - 1], more[|more| - 1];
      assert run + more == run + init + [e];
      AfterSnoc(trace, bs, run + init, e);
      RunStable(trace, bs, run, init, g);
      RunKeeps(trace, bs, run + init);
      StepStable(trace, bs, After(trace, bs, run + init), e, g);
      SameDestinedTrans(Destined(After(trace, bs, run), g), Destined(After(trace, bs, run + init), g),
                        Destined(After(trace, bs, run + more), g));
    }
  }

  /** A loaded frame keeps its calls for ever, even when contents for it arrive again. */
  lemma CallsSetOnce(trace: Trace, bs: seq<FrameBookmark>, run: seq<Event>, more: seq<Event>, g: nat)
    requires Partition(trace, bs) && g < |bs| && After(trace, bs, run).gui.frames[g].loaded
    ensures var later := After(trace, bs, run + more).gui.frames[g];
      later.loaded && SameCalls(After(trace, bs, run).gui.frames[g].calls, later.calls)
  {
    RunStable(trace, bs, run, more, g);
  }

  // ----- whose object is a found call? -----

  /** The call that a request asks the loader for. */
  function Target(trace: Trace, bs: seq<FrameBookmark>, r: Request): Option<int> {
    match r
    case FindCallIndex(idx) => Some(idx)
    case Search(forward, f, hits) =>
      if f >= |bs| then None
      else
        (match if forward then FirstHit(hits, bs[f].start, |trace|) else LastHit(hits, bs[f].End())
         case None => None
         case Some(c) => Some(c))
    case _ => None
  }

  predicate BatchesBelow(calls: seq<Call>, n: nat) {
    forall p :: 0 <= p < |calls| ==> calls[p].batch < n
  }

  /** Every object known so far is older than those of the next reply. */
  ghost predicate BatchInv(s: System) {
    && (forall k :: 0 <= k < |s.gui.frames| ==> BatchesBelow(s.gui.frames[k].calls, s.nextBatch))
    && (forall i :: 0 <= i < |s.toGui| ==> s.toGui[i].Contents? ==> BatchesBelow(s.toGui[i].calls, s.nextBatch))
  }

  lemma SameBatches(a: seq<Call>, b: seq<Call>, n: nat)
    requires SameCalls(a, b) && BatchesBelow(a, n)
    ensures BatchesBelow(b, n)
  {
    assert forall p :: 0 <= p < |b| ==> a[p].SameObject(b[p]);
  }

  lemma FetchBatches(bs: seq<FrameBookmark>, s: System, g: nat)
    requires g < |bs| == |s.gui.frames| && BatchInv(s)
    ensures BatchInv(Fetch(bs, s, g))
  {
  }

  lemma FetchCallBatches(bs: seq<FrameBookmark>, s: System, idx: int, search: bool)
    requires |bs| == |s.gui.frames| && BatchInv(s)
    ensures BatchInv(FetchCall(bs, s, idx, search))
  {
    if Holder(bs, idx).Some? {
      FetchBatches(bs, s, Holder(bs, idx).value);
    }
  }

  lemma HandleBatches(trace: Trace, bs: seq<FrameBookmark>, s: System, r: Request)
    requires |bs| == |s.gui.frames| && BatchInv(s)
    ensures BatchInv(Handle(trace, bs, s, r))
  {
    match r
    case LoadFrame(f) => if f < |bs| { FetchBatches(bs, s, f); }
    case FindFrameStart(f) => if f < |bs| { FetchBatches(bs, s, f); }
    case FindFrameEnd(f) => if f < |bs| { FetchBatches(bs, s, f); }
    case FindCallIndex(idx) => FetchCallBatches(bs, s, idx, false);
    case Search(forward, f, hits) =>
      if f < |bs| {
        var c := if forward then FirstHit(hits, bs[f].start, |trace|) else LastHit(hits, bs[f].End());
        if c.Some? {
          FetchCallBatches(bs, s, c.value, true);
        }
      }
  }

  lemma StepBatches(trace: Trace, bs: seq<FrameBookmark>, s: System, e: Event)
    requires |bs| == |s.gui.frames| && BatchInv(s)
    ensures BatchInv(Step(trace, bs, s, e))
  {
    if e.LoaderTurn? {
      if s.toLoader != [] {
        HandleBatches(trace, bs, s.(toLoader := s.toLoader[1..]), s.toLoader[0]);
      }
    } else if e.GuiTurn? {
      if s.toGui != [] && s.toGui[0].Contents? && s.toGui[0].frame < |bs| {
        var m := s.toGui[0];
        var calls := Installed(s.gui.frames[m.frame], m.calls).calls;
        ApplyQueueSame(m.frame, calls, s.gui.errors, s.gui.queued);
        SameBatches(calls, ApplyQueue(m.frame, calls, s.gui.errors, s.gui.queued).calls, s.nextBatch);
      }
    } else if e.ErrorReported? {
      var g' := OnError(s.gui, e.report.callIndex, e.report.message).0;
      forall k | 0 <= k < |bs| ensures BatchesBelow(g'.frames[k].calls, s.nextBatch) {
        ErrorStable(s.gui, e.report.callIndex, e.report.message, k);
        SameBatches(s.gui.frames[k].calls, g'.frames[k].calls, s.nextBatch);
      }
    }
  }

  lemma {:induction false} RunBatches(trace: Trace, bs: seq<FrameBookmark>, run: seq<Event>)
    ensures BatchInv(After(trace, bs, run))
    decreases |run|
  {
    if run != [] {
      RunBatches(trace, bs, run[..|run| - 1]);
      StepBatches(trace, bs, After(trace, bs, run[..|run| - 1]), run[|run| - 1]);
    }
  }

  /** c is one of the objects that its frame has or is going to have. */
  predicate Own(s: System, g: nat, c: Call)
    requires g < |s.gui.frames|
  {
    Destined(s, g).Some? && PositionOf(Destined(s, g).value, c) >= 0
  }

  lemma {:induction false} FirstArrivingOld(bs: seq<FrameBookmark>, msgs: seq<Reply>, g: nat, n: nat)
    requires forall i :: 0 <= i < |msgs| ==> msgs[i].Contents? ==> BatchesBelow(msgs[i].calls, n)
    ensures FirstArriving(msgs, g).Some? ==> BatchesBelow(FirstArriving(msgs, g).value, n)
    decreases |msgs|
  {
    if msgs != [] {
      FirstArrivingOld(bs, msgs[1..], g, n);
    }
  }

  /** The object that a fetch of frame g reports for call idx. */
  function ReportedCall(bs: seq<FrameBookmark>, s: System, g: nat, idx: int): Option<Call>
    requires g < |bs| == |s.gui.frames|
  {
    var calls := Fetched(bs, s, g);
    match IndexOf(calls, idx) case None => None case Some(p) => Some(calls[p])
  }

  /** What the loader reports for call idx: an object of the frame exactly if the frame is loaded
      or no contents of it are on the way. */
  lemma ReportedOwn(trace: Trace, bs: seq<FrameBookmark>, s: System, idx: int, search: bool, g: nat)
    requires Partition(trace, bs) && Inv(bs, s) && BatchInv(s) && Holder(bs, idx) == Some(g)
    ensures ReportedCall(bs, s, g, idx).Some?
    ensures var c, s' := ReportedCall(bs, s, g, idx).value, FetchCall(bs, s, idx, search);
      && c.index == idx
      && s'.toGui != [] && s'.toGui[|s'.toGui| - 1] == (if search then SearchFound(c) else CallFound(c))
      && (Destined(s', g).Some? && (Own(s', g, c) <==> s.gui.frames[g].loaded || g !in Arriving(s.toGui)))
  {
    var calls := Fetched(bs, s, g);
    NextStart(trace, bs, g);
    assert FrameFits(s.gui.frames[g], bs[g]);
    hide Partition, Inv;
    IndexOfFits(calls, bs[g].start, idx);
    hide IndexOf;
    var c := ReportedCall(bs, s, g, idx).value;
    var p := IndexOf(calls, idx).value;
    assert calls[p].SameObject(c);
    if !s.gui.frames[g].loaded {
      var m := Contents(g, calls);
      FirstArrivingConcat(s.toGui, [m], g);
      FirstArrivingConcat(s.toGui + [m], [if search then SearchFound(c) else CallFound(c)], g);
      FirstArrivingOld(bs, s.toGui, g, s.nextBatch);
    }
  }

  /** The loader's turn that handles a request for a call. */
  lemma ReportingTurn(trace: Trace, bs: seq<FrameBookmark>, s: System, idx: int)
    requires |bs| == |s.gui.frames| && s.toLoader != []
    requires Target(trace, bs, s.toLoader[0]) == Some(idx)
    ensures Step(trace, bs, s, LoaderTurn)
      == FetchCall(bs, s, idx, s.toLoader[0].Search?).(toLoader := s.toLoader[1..])
  {
  }

  lemma OwnStable(trace: Trace, bs: seq<FrameBookmark>, run: seq<Event>, more: seq<Event>, g: nat, c: Call)
    requires Partition(trace, bs) && g < |bs| && Destined(After(trace, bs, run), g).Some?
    ensures Destined(After(trace, bs, run + more), g).Some?
    ensures Own(After(trace, bs, run + more), g, c) <==> Own(After(trace, bs, run), g, c)
  {
    RunStable(trace, bs, run, more, g);
    var a, b := Destined(After(trace, bs, run), g).value, Destined(After(trace, bs, run + more), g).value;
    if PositionOf(a, c) >= 0 {
      assert a[PositionOf(a, c)].SameObject(b[PositionOf(a, c)]);
    }
    if PositionOf(b, c) >= 0 {
      assert a[PositionOf(b, c)].SameObject(b[PositionOf(b, c)]);
    }
  }

  /** The whole life of a reported call object: the loader reports it in one turn; from then on,
      whatever happens, it is an object of its frame if and only if, when it was reported, the
      frame was loaded or no contents of the frame were on the way.  In the other case the GUI
      keeps the contents that arrived first and the reported object belongs to no frame. */
  lemma ReportedObject(
      trace: Trace, bs: seq<FrameBookmark>, run: seq<Event>, more: seq<Event>, idx: int, g: nat, c: Call)
    requires Partition(trace, bs)
    requires After(trace, bs, run).toLoader != []
    requires Target(trace, bs, After(trace, bs, run).toLoader[0]) == Some(idx) && Holder(bs, idx) == Some(g)
    requires ReportedCall(bs, After(trace, bs, run), g, idx) == Some(c)
    ensures var s := After(trace, bs, run);
      var posted := After(trace, bs, run + [LoaderTurn]).toGui;
      var later := After(trace, bs, run + [LoaderTurn] + more);
      && c.index == idx
      && posted != [] && posted[|posted| - 1] in {SearchFound(c), CallFound(c)}
      && Destined(later, g).Some?
      && (Own(later, g, c) <==> s.gui.frames[g].loaded || g !in Arriving(s.toGui))
  {
    var s := After(trace, bs, run);
    RunKeeps(trace, bs, run);
    RunBatches(trace, bs, run);
    ReportedOwn(trace, bs, s, idx, s.toLoader[0].Search?, g);
    assert (run + [LoaderTurn])[..|run|] == run;
    ReportingTurn(trace, bs, s, idx);
    OwnStable(trace, bs, run + [LoaderTurn], more, g, c);
  }

  /** Searching on from a reported call, once its frame is loaded, goes on behind that call if and
      only if the frame was loaded, or none of its contents were on the way, when the call was
      reported.  Otherwise the search starts again at the beginning of the frame. */
  lemma SearchAgain(
      trace: Trace, bs: seq<FrameBookmark>, run: seq<Event>, more: seq<Event>, idx: int, g: nat, c: Call)
    requires Partition(trace, bs)
    requires After(trace, bs, run).toLoader != []
    requires Target(trace, bs, After(trace, bs, run).toLoader[0]) == Some(idx) && Holder(bs, idx) == Some(g)
    requires ReportedCall(bs, After(trace, bs, run), g, idx) == Some(c)
    requires After(trace, bs, run + [LoaderTurn] + more).gui.frames[g].loaded
    ensures var s := After(trace, bs, run);
      GoesOn(trace, bs, After(trace, bs, run + [LoaderTurn] + more).gui.frames, g, c)
      <==> s.gui.frames[g].loaded || g !in Arriving(s.toGui)
  {
    ReportedObject(trace, bs, run, more, idx, g, c);
    RunKeeps(trace, bs, run + [LoaderTurn] + more);
    InFrame(trace, bs, idx, g);
    hide Arriving, ReportedCall, Target, GoesOn, Partition;
    GoesOnIffAnchored(trace, bs, After(trace, bs, run + [LoaderTurn] + more).gui.frames, g, c);
  }

  /** Searching backwards from a reported call goes on before that call under the same condition, or
      if the call is its frame's first.  Otherwise the search skips the rest of the frame. */
  lemma SearchBackAgain(
      trace: Trace, bs: seq<FrameBookmark>, run: seq<Event>, more: seq<Event>, idx: int, g: nat, c: Call)
    requires Partition(trace, bs)
    requires After(trace, bs, run).toLoader != []
    requires Target(trace, bs, After(trace, bs, run).toLoader[0]) == Some(idx) && Holder(bs, idx) == Some(g)
    requires ReportedCall(bs, After(trace, bs, run), g, idx) == Some(c)
    requires After(trace, bs, run + [LoaderTurn] + more).gui.frames[g].loaded
    ensures var s := After(trace, bs, run);
      GoesBack(trace, bs, After(trace, bs, run + [LoaderTurn] + more).gui.frames, g, c)
      <==> s.gui.frames[g].loaded || g !in Arriving(s.toGui) || idx == bs[g].start
  {
    ReportedObject(trace, bs, run, more, idx, g, c);
    RunKeeps(trace, bs, run + [LoaderTurn] + more);
    InFrame(trace, bs, idx, g);
    hide Arriving, ReportedCall, Target, GoesBack, Partition;
    GoesBackIffAnchored(trace, bs, After(trace, bs, run + [LoaderTurn] + more).gui.frames, g, c);
  }

  lemma InFrame(trace: Trace, bs: seq<FrameBookmark>, idx: int, g: nat)
    requires Partition(trace, bs) && Holder(bs, idx) == Some(g)
    ensures g < |bs| && bs[g].start <= idx < bs[g].End()
  {
  }

  // ----- a run in which the reported object is not the frame's -----

  const ONE_CALL: Trace := [TraceCall(true, false, false)]
  const ONE_FRAME: seq<FrameBookmark> := [FrameBookmark(0, 1)]

  /** The user opens a frame and searches in it before it is there. */
  const FOREIGN_RUN: seq<Event> :=
    [UserLoadFrame(0), UserFindNext(0, None, {0}), LoaderTurn, LoaderTurn, GuiTurn, GuiTurn]

  lemma RunOn(trace: Trace, bs: seq<FrameBookmark>, run: seq<Event>, n: nat)
    requires n < |run|
    ensures After(trace, bs, run[..n + 1]) == Step(trace, bs, After(trace, bs, run[..n]), run[n])
  {
    assert run[..n + 1][..n] == run[..n];
  }

  /** The search result that waits for the GUI then is the call with number 0, in a loaded frame
      that has a call with number 0, but another object. */
  lemma ForeignObject()
    ensures Partition(ONE_CALL, ONE_FRAME)
    ensures var s := After(ONE_CALL, ONE_FRAME, FOREIGN_RUN);
      && s.toGui == [SearchFound(Call(0, 1, ""))]
      && s.gui.frames[0] == Frame(1, true, [Call(0, 0, "")])
      && PositionOf(s.gui.frames[0].calls, Call(0, 1, "")) == -1
  {
    assert FrameOk(ONE_CALL, ONE_FRAME, 0, 1);
    ForeignRequests();
    ForeignReplies();
  }

  const WAITING := Gui([Frame(1, false, [])], {0}, [], {})
  const LOADED := Gui([Frame(1, true, [OLD_CALL])], {}, [], {})
  const OLD_CALL := Call(0, 0, "")
  const NEW_CALL := Call(0, 1, "")
  const SEARCH := Search(true, 0, {0})

  lemma ForeignRequests()
    ensures After(ONE_CALL, ONE_FRAME, FOREIGN_RUN[..2]) == System(WAITING, [LoadFrame(0), SEARCH], [], 0)
  {
    RunOn(ONE_CALL, ONE_FRAME, FOREIGN_RUN, 0);
    RunOn(ONE_CALL, ONE_FRAME, FOREIGN_RUN, 1);
    assert FOREIGN_RUN[..0] == [];
    assert Initial(ONE_FRAME).gui.frames == [Frame(1, false, [])];
    assert [LoadFrame(0)] + [SEARCH] == [LoadFrame(0), SEARCH];
  }

  lemma ForeignLoad()
    ensures Step(ONE_CALL, ONE_FRAME, System(WAITING, [LoadFrame(0), SEARCH], [], 0), LoaderTurn)
      == System(WAITING, [SEARCH], [Contents(0, [OLD_CALL])], 1)
  {
    assert MakeCalls(ONE_FRAME[0], 0) == [OLD_CALL];
  }

  lemma ForeignSearch()
    ensures Step(ONE_CALL, ONE_FRAME, System(WAITING, [SEARCH], [Contents(0, [OLD_CALL])], 1), LoaderTurn)
      == System(WAITING, [], [Contents(0, [OLD_CALL]), Contents(0, [NEW_CALL]), SearchFound(NEW_CALL)], 2)
  {
    var s := System(WAITING, [], [Contents(0, [OLD_CALL])], 1);
    assert MakeCalls(ONE_FRAME[0], 1) == [NEW_CALL];
    assert Holder(ONE_FRAME, 0) == Some(0);
    assert FirstHit({0}, 0, 1) == Some(0);
    assert Fetched(ONE_FRAME, s, 0) == [NEW_CALL];
    assert FetchCall(ONE_FRAME, s, 0, true) == Post(Fetch(ONE_FRAME, s, 0), SearchFound(NEW_CALL));
  }

  lemma ForeignArrivals(rest: seq<Reply>)
    ensures Step(ONE_CALL, ONE_FRAME, System(WAITING, [], [Contents(0, [OLD_CALL])] + rest, 2), GuiTurn)
      == System(LOADED, [], rest, 2)
    ensures Step(ONE_CALL, ONE_FRAME, System(LOADED, [], [Contents(0, [NEW_CALL])] + rest, 2), GuiTurn)
      == System(LOADED, [], rest, 2)
  {
    assert ([Contents(0, [OLD_CALL])] + rest)[1..] == rest;
    assert ([Contents(0, [NEW_CALL])] + rest)[1..] == rest;
  }

  lemma ForeignReplies()
    requires After(ONE_CALL, ONE_FRAME, FOREIGN_RUN[..2]) == System(WAITING, [LoadFrame(0), SEARCH], [], 0)
    ensures After(ONE_CALL, ONE_FRAME, FOREIGN_RUN) == System(LOADED, [], [SearchFound(NEW_CALL)], 2)
  {
    hide Step;
    hide After;
    var found := [SearchFound(NEW_CALL)];
    RunOn(ONE_CALL, ONE_FRAME, FOREIGN_RUN, 2);
    ForeignLoad();
    RunOn(ONE_CALL, ONE_FRAME, FOREIGN_RUN, 3);
    ForeignSearch();
    assert [Contents(0, [OLD_CALL]), Contents(0, [NEW_CALL]), SearchFound(NEW_CALL)]
      == [Contents(0, [OLD_CALL])] + ([Contents(0, [NEW_CALL])] + found);
    RunOn(ONE_CALL, ONE_FRAME, FOREIGN_RUN, 4);
    ForeignArrivals([Contents(0, [NEW_CALL])] + found);
    RunOn(ONE_CALL, ONE_FRAME, FOREIGN_RUN, 5);
    ForeignArrivals(found);
    assert FOREIGN_RUN[..6] == FOREIGN_RUN;
  }
}
