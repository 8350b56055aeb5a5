/** The GUI thread and the loader thread of one trace, with a FIFO of signals in each direction.
    A run is any sequence of events: what the user does, errors that the retracer reports, and
    turns of either thread, each of which handles the oldest signal waiting for it. */
module LoaderProtocol {
  import opened Options
  import opened SearchSpec
  import opened TraceScan
  import opened GuiTrace

  /** What the loader sends back. */
  datatype Reply =
    | Contents(frame: nat, calls: seq<Call>)
    | FrameStartFound(frame: nat)
    | FrameEndFound(frame: nat)
    | CallFound(call: Call)
    | SearchFound(call: Call)
    | SearchNotFound

  datatype System = System(gui: Gui, toLoader: seq<Request>, toGui: seq<Reply>, nextBatch: nat)

  datatype Report = Report(callIndex: int, message: string)

  datatype Event =
    | UserLoadFrame(frame: nat)
    | UserFindFrameStart(frame: nat)
    | UserFindFrameEnd(frame: nat)
    | UserFindCallIndex(index: int)
    | UserFindNext(frame: nat, from: Option<Call>, hits: set<nat>)
    | UserFindPrev(frame: nat, from: Option<Call>, hits: set<nat>)
    | ErrorReported(report: Report)
    | LoaderTurn
    | GuiTurn

  // ----- the loader's handlers -----

  function MakeCalls(b: FrameBookmark, batch: nat): (calls: seq<Call>)
    ensures |calls| == b.numberOfCalls
  {
    seq(b.numberOfCalls, p requires p >= 0 => Call(b.start + p, batch, ""))
  }

  /** The frame that the loader's callInFrame finds for a call. */
  function Holder(bs: seq<FrameBookmark>, idx: int): (r: Option<nat>)
    ensures r.Some? ==> r.value < |bs| && bs[r.value].start <= idx < bs[r.value].End()
  {
    if bs == [] then None
    else
      var last := |bs| - 1;
      if bs[last].start <= idx < bs[last].End() then Some(last) else Holder(bs[..last], idx)
  }

  /** fetchFrameContents: the calls of the frame, which are parsed anew and posted unless the
      frame is loaded. */
  function Fetched(bs: seq<FrameBookmark>, s: System, g: nat): seq<Call>
    requires g < |bs| == |s.gui.frames|
  {
    if s.gui.frames[g].loaded then s.gui.frames[g].calls
    else if bs[g].numberOfCalls == 0 then []
    else MakeCalls(bs[g], s.nextBatch)
  }

  function Fetch(bs: seq<FrameBookmark>, s: System, g: nat): System
    requires g < |bs| == |s.gui.frames|
  {
    if s.gui.frames[g].loaded || bs[g].numberOfCalls == 0 then s
    else s.(toGui := s.toGui + [Contents(g, MakeCalls(bs[g], s.nextBatch))], nextBatch := s.nextBatch + 1)
  }

  function Post(s: System, m: Reply): System { s.(toGui := s.toGui + [m]) }

  /** Fetches the frame that holds call idx and, if the call is among the fetched, posts `found`. */
  function FetchCall(bs: seq<FrameBookmark>, s: System, idx: int, search: bool): System
    requires |bs| == |s.gui.frames|
  {
    match Holder(bs, idx)
    case None => s
    case Some(g) =>
      var calls := Fetched(bs, s, g);
      match IndexOf(calls, idx)
      case None => Fetch(bs, s, g)
      case Some(p) => Post(Fetch(bs, s, g), if search then SearchFound(calls[p]) else CallFound(calls[p]))
  }

  function Handle(trace: Trace, bs: seq<FrameBookmark>, s: System, r: Request): System
    requires |bs| == |s.gui.frames|
  {
    match r
    case LoadFrame(f) => if f < |bs| then Fetch(bs, s, f) else s
    case FindFrameStart(f) => if f < |bs| then Post(Fetch(bs, s, f), FrameStartFound(f)) else s
    case FindFrameEnd(f) => if f < |bs| then Post(Fetch(bs, s, f), FrameEndFound(f)) else s
    case FindCallIndex(idx) => FetchCall(bs, s, idx, false)
    case Search(forward, f, hits) =>
      if f >= |bs| then s
      else
        match if forward then FirstHit(hits, bs[f].start, |trace|) else LastHit(hits, bs[f].End())
        case None => Post(s, SearchNotFound)
        case Some(c) => FetchCall(bs, s, c, true)
  }

  // ----- the events -----

  function Send(s: System, g: Gui, rs: seq<Request>): System { s.(gui := g, toLoader := s.toLoader + rs) }

  function Asked(s: System, o: Outcome, forward: bool, hits: set<nat>): System {
    if o.Ask? then s.(toLoader := s.toLoader + [Search(forward, o.frame, hits)]) else s
  }

  /** One event.  The user asks only for frames that exist, and to load only those that are not
      loaded; a turn of a thread without a waiting signal does nothing. */
  function Step(trace: Trace, bs: seq<FrameBookmark>, s: System, e: Event): System
    requires |bs| == |s.gui.frames|
  {
    match e
    case UserLoadFrame(f) =>
      if f < |bs| && !s.gui.frames[f].loaded then Send(s, OnLoadFrame(s.gui, f).0, OnLoadFrame(s.gui, f).1) else s
    case UserFindFrameStart(f) =>
      if f < |bs| && !s.gui.frames[f].loaded then Send(s, s.gui, [FindFrameStart(f)]) else s
    case UserFindFrameEnd(f) =>
      if f < |bs| && !s.gui.frames[f].loaded then Send(s, s.gui, [FindFrameEnd(f)]) else s
    case UserFindCallIndex(idx) =>
      (match FrameOf(s.gui.frames, idx)
       case None => s
       case Some(f) => if s.gui.frames[f].loaded then s else Send(s, s.gui, [FindCallIndex(idx)]))
    case UserFindNext(f, from, hits) =>
      if f < |bs| then Asked(s, OnFindNext(s.gui.frames, f, from, hits), true, hits) else s
    case UserFindPrev(f, from, hits) =>
      if f < |bs| then Asked(s, OnFindPrev(s.gui.frames, f, from, hits), false, hits) else s
    case ErrorReported(r) =>
      Send(s, OnError(s.gui, r.callIndex, r.message).0, OnError(s.gui, r.callIndex, r.message).1)
    case LoaderTurn =>
      if s.toLoader == [] then s
      else Handle(trace, bs, s.(toLoader := s.toLoader[1..]), s.toLoader[0])
    case GuiTurn =>
      if s.toGui == [] then s
      else
        var m, s' := s.toGui[0], s.(toGui := s.toGui[1..]);
        if m.Contents? && m.frame < |bs| then s'.(gui := OnFrameLoaded(s.gui, m.frame, m.calls)) else s'
  }

  /** After the scan: no frame is loaded and nothing is under way. */
  function Initial(bs: seq<FrameBookmark>): (s: System)
    ensures |s.gui.frames| == |bs|
  {
    System(Gui(seq(|bs|, k requires 0 <= k < |bs| => Frame(bs[k].numberOfCalls, false, [])), {}, [], {}), [], [], 0)
  }

  lemma StepKeepsFrameCount(trace: Trace, bs: seq<FrameBookmark>, s: System, e: Event)
    requires |bs| == |s.gui.frames|
    ensures |Step(trace, bs, s, e).gui.frames| == |bs|
  {
  }

  function After(trace: Trace, bs: seq<FrameBookmark>, run: seq<Event>): (s: System)
    ensures |s.gui.frames| == |bs|
  {
    if run == [] then Initial(bs)
    else
      var s := After(trace, bs, run[..|run| - 1]);
      StepKeepsFrameCount(trace, bs, s, run[|run| - 1]);
      Step(trace, bs, s, run[|run| - 1])
  }

  lemma AfterSnoc(trace: Trace, bs: seq<FrameBookmark>, run: seq<Event>, e: Event)
    ensures After(trace, bs, run + [e]) == Step(trace, bs, After(trace, bs, run), e)
  {
    assert (run + [e])[..|run|] == run;
    hide Step;
  }

  // ----- invariant: frames, requests and replies -----

  function LoadedFrames(g: Gui): set<nat> {
    set k | 0 <= k < |g.frames| && g.frames[k].loaded
  }

  /** The frames whose contents are on their way to the GUI. */
  function Arriving(msgs: seq<Reply>): set<nat> {
    if msgs == [] then {}
    else (if msgs[0].Contents? then {msgs[0].frame} else {}) + Arriving(msgs[1..])
  }

  /** The frame that a reply other than contents refers to. */
  function Named(bs: seq<FrameBookmark>, m: Reply): Option<nat> {
    match m
    case FrameStartFound(f) => Some(f)
    case FrameEndFound(f) => Some(f)
    case CallFound(c) => Holder(bs, c.index)
    case SearchFound(c) => Holder(bs, c.index)
    case _ => None
  }

  /** Delivered in order, every reply that refers to a frame finds that frame loaded. */
  predicate Ordered(bs: seq<FrameBookmark>, loaded: set<nat>, msgs: seq<Reply>)
    decreases |msgs|
  {
    if msgs == [] then true
    else if msgs[0].Contents? then Ordered(bs, loaded + {msgs[0].frame}, msgs[1..])
    else (Named(bs, msgs[0]).Some? ==> Named(bs, msgs[0]).value in loaded) && Ordered(bs, loaded, msgs[1..])
  }

  /** Contents are those of a frame, and every other reply but "not found" names a frame. */
  ghost predicate ReplyOk(bs: seq<FrameBookmark>, m: Reply) {
    && (m.Contents? ==> m.frame < |bs| && exists batch: nat :: m.calls == MakeCalls(bs[m.frame], batch))
    && (!m.Contents? && !m.SearchNotFound? ==> Named(bs, m).Some? && Named(bs, m).value < |bs|)
  }

  ghost predicate RequestOk(bs: seq<FrameBookmark>, r: Request) {
    match r
    case FindCallIndex(idx) => Holder(bs, idx).Some?
    case _ => r.frame < |bs|
  }

  /** Every frame that counts as loading is unloaded, and its request or its contents are under
      way. */
  ghost predicate LoadingOk(s: System) {
    forall f :: f in s.gui.loading ==>
      f < |s.gui.frames| && !s.gui.frames[f].loaded && (LoadFrame(f) in s.toLoader || f in Arriving(s.toGui))
  }

  /** Every queued error waits for the frame that holds its call, and that frame is loading. */
  ghost predicate QueueOk(bs: seq<FrameBookmark>, s: System) {
    forall q :: q in s.gui.queued ==> q.frame in s.gui.loading && Holder(bs, q.callIndex) == Some(q.frame)
  }

  ghost predicate Inv(bs: seq<FrameBookmark>, s: System) {
    && FramesFit(s.gui.frames, bs)
    && LoadingOk(s)
    && QueueOk(bs, s)
    && Ordered(bs, LoadedFrames(s.gui), s.toGui)
    && (forall i :: 0 <= i < |s.toGui| ==> ReplyOk(bs, s.toGui[i]))
    && (forall i :: 0 <= i < |s.toLoader| ==> RequestOk(bs, s.toLoader[i]))
  }

  lemma {:induction false} ArrivingConcat(a: seq<Reply>, b: seq<Reply>)
    ensures Arriving(a + b) == Arriving(a) + Arriving(b)
  {
    if a == [] {
      assert a + b == b;
    } else {
      ArrivingConcat(a[1..], b);
      assert (a + b)[1..] == a[1..] + b;
    }
  }

  lemma {:induction false} OrderedConcat(bs: seq<FrameBookmark>, loaded: set<nat>, a: seq<Reply>, b: seq<Reply>)
    ensures Ordered(bs, loaded, a + b) <==> Ordered(bs, loaded, a) && Ordered(bs, loaded + Arriving(a), b)
    decreases |a|
  {
    if a == [] {
      assert a + b == b && loaded + {} == loaded;
    } else {
      assert (a + b)[1..] == a[1..] + b;
      var l := if a[0].Contents? then loaded + {a[0].frame} else loaded;
      OrderedConcat(bs, l, a[1..], b);
      assert l + Arriving(a[1..]) == loaded + Arriving(a);
    }
  }

  /** Holder finds the one frame of the partition that holds the call. */
  lemma {:induction false} HolderMeaning(trace: Trace, bs: seq<FrameBookmark>, n: nat, k: nat, idx: int)
    requires Partition(trace, bs) && k < n <= |bs| && bs[k].start <= idx < bs[k].End()
    ensures Holder(bs[..n], idx) == Some(k)
    decreases n
  {
    if k < n - 1 {
      StartsAscend(trace, bs, k, n - 1);
      assert bs[..n][..n - 1] == bs[..n - 1];
      HolderMeaning(trace, bs, n - 1, k, idx);
    }
  }

  lemma HolderIsFrameOf(trace: Trace, bs: seq<FrameBookmark>, frames: seq<Frame>, idx: int)
    requires Partition(trace, bs) && FramesFit(frames, bs)
    ensures Holder(bs, idx) == FrameOf(frames, idx)
  {
    assert bs[..|bs|] == bs;
    FrameOfMeaning(trace, bs, frames, idx);
    if FrameOf(frames, idx).Some? {
      HolderMeaning(trace, bs, |bs|, FrameOf(frames, idx).value, idx);
    }
  }

  // ----- the invariant is kept -----

  /** Posting replies keeps the order if each reply finds its frame loaded or posted before. */
  lemma PostKeeps(bs: seq<FrameBookmark>, s: System, m: Reply)
    requires Inv(bs, s) && ReplyOk(bs, m)
    requires !m.Contents? && Named(bs, m).Some? ==>
      Named(bs, m).value in LoadedFrames(s.gui) || Named(bs, m).value in Arriving(s.toGui)
    ensures Inv(bs, Post(s, m))
  {
    ArrivingConcat(s.toGui, [m]);
    OrderedConcat(bs, LoadedFrames(s.gui), s.toGui, [m]);
    assert [m][1..] == [];
  }

  lemma FetchKeeps(trace: Trace, bs: seq<FrameBookmark>, s: System, g: nat)
    requires Partition(trace, bs) && Inv(bs, s) && g < |bs|
    ensures Inv(bs, Fetch(bs, s, g))
    ensures g in LoadedFrames(Fetch(bs, s, g).gui) || g in Arriving(Fetch(bs, s, g).toGui)
  {
    NextStart(trace, bs, g);
    if !s.gui.frames[g].loaded {
      var m := Contents(g, MakeCalls(bs[g], s.nextBatch));
      PostKeeps(bs, s, m);
      ArrivingConcat(s.toGui, [m]);
    }
  }

  lemma FetchCallKeeps(trace: Trace, bs: seq<FrameBookmark>, s: System, idx: int, search: bool)
    requires Partition(trace, bs) && Inv(bs, s)
    ensures Inv(bs, FetchCall(bs, s, idx, search))
  {
    if Holder(bs, idx).Some? {
      var g := Holder(bs, idx).value;
      FetchKeeps(trace, bs, s, g);
      var calls := Fetched(bs, s, g);
      if IndexOf(calls, idx).Some? {
        var c := calls[IndexOf(calls, idx).value];
        assert c.index == idx;
        PostKeeps(bs, Fetch(bs, s, g), if search then SearchFound(c) else CallFound(c));
      }
    }
  }

  /** Like Inv for a state from which the loader has just taken request r. */
  lemma HandleKeeps(trace: Trace, bs: seq<FrameBookmark>, s: System, r: Request)
    requires Partition(trace, bs) && RequestOk(bs, r)
    requires Inv(bs, s)
    ensures Inv(bs, Handle(trace, bs, s, r))
  {
    match r
    case LoadFrame(f) => FetchKeeps(trace, bs, s, f);
    case FindFrameStart(f) =>
      FetchKeeps(trace, bs, s, f);
      PostKeeps(bs, Fetch(bs, s, f), FrameStartFound(f));
    case FindFrameEnd(f) =>
      FetchKeeps(trace, bs, s, f);
      PostKeeps(bs, Fetch(bs, s, f), FrameEndFound(f));
    case FindCallIndex(idx) => FetchCallKeeps(trace, bs, s, idx, false);
    case Search(forward, f, hits) =>
      var c := if forward then FirstHit(hits, bs[f].start, |trace|) else LastHit(hits, bs[f].End());
      if c.Some? {
        FetchCallKeeps(trace, bs, s, c.value, true);
      } else {
        PostKeeps(bs, s, SearchNotFound);
      }
  }

  /** Taking a handled request off the queue. */
  lemma TakeRequestKeeps(bs: seq<FrameBookmark>, s: System)
    requires Inv(bs, s) && s.toLoader != []
    requires s.toLoader[0].LoadFrame? ==>
      s.toLoader[0].frame in LoadedFrames(s.gui) || s.toLoader[0].frame in Arriving(s.toGui)
    ensures Inv(bs, s.(toLoader := s.toLoader[1..]))
  {
    forall f | f in s.gui.loading ensures LoadFrame(f) in s.toLoader[1..] || f in Arriving(s.toGui) {
      if LoadFrame(f) in s.toLoader && LoadFrame(f) != s.toLoader[0] {
        var i :| 0 <= i < |s.toLoader| && s.toLoader[i] == LoadFrame(f);
        assert s.toLoader[1..][i - 1] == LoadFrame(f);
      }
    }
  }

  /** Handling a request sends no request. */
  lemma HandleKeepsRequests(trace: Trace, bs: seq<FrameBookmark>, s: System, r: Request)
    requires |bs| == |s.gui.frames|
    ensures Handle(trace, bs, s, r).toLoader == s.toLoader
  {
  }

  /** A request may be taken off the queue before or after it is handled. */
  lemma HandleTaken(trace: Trace, bs: seq<FrameBookmark>, s: System, r: Request)
    requires |bs| == |s.gui.frames| && s.toLoader != []
    ensures Handle(trace, bs, s.(toLoader := s.toLoader[1..]), r)
      == Handle(trace, bs, s, r).(toLoader := s.toLoader[1..])
  {
  }

  lemma LoaderTurnKeeps(trace: Trace, bs: seq<FrameBookmark>, s: System)
    requires Partition(trace, bs) && Inv(bs, s)
    ensures Inv(bs, Step(trace, bs, s, LoaderTurn))
  {
    if s.toLoader != [] {
      var r := s.toLoader[0];
      var s' := Handle(trace, bs, s, r);
      HandleKeeps(trace, bs, s, r);
      HandleKeepsRequests(trace, bs, s, r);
      if r.LoadFrame? {
        FetchKeeps(trace, bs, s, r.frame);
      }
      hide Inv, Partition;
      TakeRequestKeeps(bs, s');
      HandleTaken(trace, bs, s, r);
      assert Step(trace, bs, s, LoaderTurn) == s'.(toLoader := s'.toLoader[1..]);
    }
  }

  /** Errors change no call's number or origin. */
  predicate SameCalls(a: seq<Call>, b: seq<Call>) {
    |a| == |b| && forall p :: 0 <= p < |a| ==> a[p].SameObject(b[p])
  }

  lemma SameCallsFit(a: seq<Call>, b: seq<Call>, bm: FrameBookmark)
    requires SameCalls(a, b) && CallsFit(a, bm)
    ensures CallsFit(b, bm)
  {
    assert forall p :: 0 <= p < |b| ==> a[p].SameObject(b[p]);
  }

  lemma {:induction false} IndexOfFits(calls: seq<Call>, start: nat, idx: int)
    requires forall p :: 0 <= p < |calls| ==> calls[p].index == start + p
    requires start <= idx < start + |calls|
    ensures IndexOf(calls, idx) == Some(idx - start)
  {
    if calls[0].index != idx {
      IndexOfFits(calls[1..], start + 1, idx);
    }
  }

  /** Walking the queue changes error texts only, keeps nothing new, and keeps no error of f. */
  lemma {:induction false} ApplyQueueShape(
      f: nat, calls: seq<Call>, errors: set<nat>, queue: seq<QueuedError>, b: FrameBookmark)
    requires CallsFit(calls, b)
    requires forall q :: q in queue && q.frame == f ==> b.start <= q.callIndex < b.End()
    ensures SameCalls(calls, ApplyQueue(f, calls, errors, queue).calls)
    ensures forall q :: q in ApplyQueue(f, calls, errors, queue).kept ==> q in queue && q.frame != f
    decreases |queue|
  {
    if queue != [] {
      var q := queue[0];
      assert q in queue;
      if q.frame == f {
        IndexOfFits(calls, b.start, q.callIndex);
        var p := IndexOf(calls, q.callIndex).value;
        ApplyQueueShape(f, WithError(calls, p, q.message), NoteError(errors, calls[p].index, q.message), queue[1..], b);
      } else {
        ApplyQueueShape(f, calls, errors, queue[1..], b);
      }
    }
  }

  /** Contents for frame f are installed unless the frame is loaded already. */
  function Installed(frame: Frame, calls: seq<Call>): Frame {
    if frame.loaded then frame else Frame(frame.callsToLoad, true, calls)
  }

  lemma MadeCallsFit(b: FrameBookmark, batch: nat)
    ensures CallsFit(MakeCalls(b, batch), b)
  {
  }

  lemma FrameLoadedKeeps(bs: seq<FrameBookmark>, s: System, f: nat, calls: seq<Call>)
    requires FramesFit(s.gui.frames, bs) && QueueOk(bs, s) && f < |bs| && CallsFit(calls, bs[f])
    requires forall k :: k in s.gui.loading ==> k < |bs| && !s.gui.frames[k].loaded
    ensures var g := OnFrameLoaded(s.gui, f, calls);
      && FramesFit(g.frames, bs)
      && LoadedFrames(g) == LoadedFrames(s.gui) + {f}
      && g.loading == s.gui.loading - {f}
      && QueueOk(bs, s.(gui := g))
  {
    var g := s.gui;
    var frame := Installed(g.frames[f], calls);
    assert FrameFits(g.frames[f], bs[f]);
    ApplyQueueShape(f, frame.calls, g.errors, g.queued, bs[f]);
    SameCallsFit(frame.calls, ApplyQueue(f, frame.calls, g.errors, g.queued).calls, bs[f]);
    var g' := OnFrameLoaded(g, f, calls);
    forall k | 0 <= k < |bs| ensures FrameFits(g'.frames[k], bs[k]) {
      assert FrameFits(g.frames[k], bs[k]);
    }
  }

  lemma GuiTurnKeeps(trace: Trace, bs: seq<FrameBookmark>, s: System)
    requires Inv(bs, s)
    ensures Inv(bs, Step(trace, bs, s, GuiTurn))
  {
    if s.toGui != [] {
      var m := s.toGui[0];
      assert ReplyOk(bs, m);
      if m.Contents? {
        var batch: nat :| m.calls == MakeCalls(bs[m.frame], batch);
        MadeCallsFit(bs[m.frame], batch);
        FrameLoadedKeeps(bs, s, m.frame, m.calls);
      }
    }
  }

  lemma SendKeeps(bs: seq<FrameBookmark>, s: System, r: Request)
    requires Inv(bs, s) && RequestOk(bs, r)
    ensures Inv(bs, s.(toLoader := s.toLoader + [r]))
  {
    assert forall x :: x in s.toLoader ==> x in s.toLoader + [r];
  }

  lemma LoadFrameKeeps(bs: seq<FrameBookmark>, s: System, f: nat)
    requires Inv(bs, s) && f < |bs| && !s.gui.frames[f].loaded
    ensures Inv(bs, Send(s, OnLoadFrame(s.gui, f).0, OnLoadFrame(s.gui, f).1))
    ensures f in OnLoadFrame(s.gui, f).0.loading
  {
    if f in s.gui.loading {
      assert s.toLoader + [] == s.toLoader;
    } else {
      SendKeeps(bs, s, LoadFrame(f));
      assert LoadFrame(f) in s.toLoader + [LoadFrame(f)];
    }
  }

  lemma {:induction false} NextFramesAsks(frames: seq<Frame>, i: nat, hits: set<nat>)
    ensures NextFrames(frames, i, hits).Ask? ==> NextFrames(frames, i, hits).frame < |frames|
    decreases (|frames| as int) - i
  {
    if i < |frames| {
      NextFramesAsks(frames, i + 1, hits);
    }
  }

  lemma {:induction false} PrevFramesAsks(frames: seq<Frame>, i: nat, hits: set<nat>)
    requires i <= |frames|
    ensures PrevFrames(frames, i, hits).Ask? ==> PrevFrames(frames, i, hits).frame < |frames|
  {
    if i > 0 {
      PrevFramesAsks(frames, i - 1, hits);
    }
  }

  lemma AskedKeeps(bs: seq<FrameBookmark>, s: System, o: Outcome, forward: bool, hits: set<nat>)
    requires Inv(bs, s) && (o.Ask? ==> o.frame < |bs|)
    ensures Inv(bs, Asked(s, o, forward, hits))
  {
    if o.Ask? {
      SendKeeps(bs, s, Search(forward, o.frame, hits));
    }
  }

  lemma ErrorKeeps(trace: Trace, bs: seq<FrameBookmark>, s: System, r: Report)
    requires Partition(trace, bs) && Inv(bs, s)
    ensures Inv(bs, Step(trace, bs, s, ErrorReported(r)))
  {
    var g := s.gui;
    HolderIsFrameOf(trace, bs, g.frames, r.callIndex);
    assert s.toLoader + [] == s.toLoader;
    if FrameOf(g.frames, r.callIndex).Some? {
      var f := FrameOf(g.frames, r.callIndex).value;
      assert FrameFits(g.frames[f], bs[f]);
      if g.frames[f].loaded {
        IndexOfFits(g.frames[f].calls, bs[f].start, r.callIndex);
        var g' := OnError(g, r.callIndex, r.message).0;
        forall k | 0 <= k < |bs| ensures FrameFits(g'.frames[k], bs[k]) {
          assert FrameFits(g.frames[k], bs[k]);
        }
        assert LoadedFrames(g') == LoadedFrames(g);
      } else {
        LoadFrameKeeps(bs, s, f);
      }
    }
  }

  /** Every event keeps the invariant. */
  lemma StepKeeps(trace: Trace, bs: seq<FrameBookmark>, s: System, e: Event)
    requires Partition(trace, bs) && Inv(bs, s)
    ensures Inv(bs, Step(trace, bs, s, e))
  {
    match e
    case UserLoadFrame(f) =>
      if f < |bs| && !s.gui.frames[f].loaded {
        LoadFrameKeeps(bs, s, f);
      }
    case UserFindFrameStart(f) =>
      if f < |bs| {
        SendKeeps(bs, s, FindFrameStart(f));
      }
    case UserFindFrameEnd(f) =>
      if f < |bs| {
        SendKeeps(bs, s, FindFrameEnd(f));
      }
    case UserFindCallIndex(idx) =>
      HolderIsFrameOf(trace, bs, s.gui.frames, idx);
      if FrameOf(s.gui.frames, idx).Some? {
        SendKeeps(bs, s, FindCallIndex(idx));
      }
    case UserFindNext(f, from, hits) =>
      NextFramesAsks(s.gui.frames, f, hits);
      NextFramesAsks(s.gui.frames, f + 1, hits);
      if f < |bs| {
        AskedKeeps(bs, s, OnFindNext(s.gui.frames, f, from, hits), true, hits);
      }
    case UserFindPrev(f, from, hits) =>
      if f < |bs| {
        PrevFramesAsks(s.gui.frames, f, hits);
        PrevFramesAsks(s.gui.frames, f + 1, hits);
        AskedKeeps(bs, s, OnFindPrev(s.gui.frames, f, from, hits), false, hits);
      }
    case ErrorReported(r) => ErrorKeeps(trace, bs, s, r);
    case LoaderTurn => LoaderTurnKeeps(trace, bs, s);
    case GuiTurn => GuiTurnKeeps(trace, bs, s);
  }

  /** The invariant holds after every run. */
  lemma {:induction false} RunKeeps(trace: Trace, bs: seq<FrameBookmark>, run: seq<Event>)
    requires Partition(trace, bs)
    ensures Inv(bs, After(trace, bs, run))
  {
    if run != [] {
      RunKeeps(trace, bs, run[..|run| - 1]);
      StepKeeps(trace, bs, After(trace, bs, run[..|run| - 1]), run[|run| - 1]);
    }
  }
}
