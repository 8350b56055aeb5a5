/** What the user is answered over runs: a request to the loader, whatever happens until the loader
    comes to it, is followed by the right reply. */
module SearchAnswers {
  import opened Options
  import opened SearchSpec
  import opened TraceScan
  import opened GuiTrace
  import opened TraceSearch
  import opened LoaderProtocol
  import opened CallDelivery

  // ----- requests are handled in turn -----

  function LoaderTurns(run: seq<Event>): nat {
    if run == [] then 0
    else LoaderTurns(run[..|run| - 1]) + if run[|run| - 1].LoaderTurn? then 1 else 0
  }

  predicate StartsWith(a: seq<Request>, b: seq<Request>) {
    |b| <= |a| && a[..|b|] == b
  }

  /** A turn of the loader takes the oldest request; any other event only adds requests. */
  lemma StepQueue(trace: Trace, bs: seq<FrameBookmark>, s: System, e: Event)
    requires |bs| == |s.gui.frames|
    ensures var queue := Step(trace, bs, s, e).toLoader;
      if e.LoaderTurn? then queue == if s.toLoader == [] then [] else s.toLoader[1..]
      else StartsWith(queue, s.toLoader)
  {
    if e.LoaderTurn? {
      if s.toLoader != [] {
        HandleKeepsRequests(trace, bs, s.(toLoader := s.toLoader[1..]), s.toLoader[0]);
      }
    }
    hide Handle, OnFindNext, OnFindPrev, OnError, OnLoadFrame, OnFrameLoaded;
  }

  lemma QueueStep(queue: seq<Request>, t: nat, between: seq<Request>, later: seq<Request>, taken: bool)
    requires t <= |queue| && StartsWith(between, queue[t..])
    requires if taken then t < |queue| && later == between[1..] else StartsWith(later, between)
    ensures StartsWith(later, queue[t + (if taken then 1 else 0)..])
  {
    var rest := queue[t..];
    if taken {
      assert queue[t + 1..] == rest[1..] == between[..|rest|][1..] == later[..|rest| - 1];
    } else {
      assert later[..|rest|] == later[..|between|][..|rest|] == rest;
    }
  }

  /** After t turns of the loader, the request that was number t is the oldest. */
  lemma {:induction false} QueueAfter(
      trace: Trace, bs: seq<FrameBookmark>, run: seq<Event>, more: seq<Event>)
    requires LoaderTurns(more) <= |After(trace, bs, run).toLoader|
    ensures StartsWith(After(trace, bs, run + more).toLoader, After(trace, bs, run).toLoader[LoaderTurns(more)..])
    decreases |more|
  {
    var queue := After(trace, bs, run).toLoader;
    if more == [] {
      assert run + more == run && queue[0..] == queue;
    } else {
      var init, e := more[..|more| - 1], more[|more| - 1];
      var t := LoaderTurns(init);
      assert LoaderTurns(more) == t + if e.LoaderTurn? then 1 else 0;
      assert run + more == run + init + [e];
      hide LoaderTurns, StartsWith, After, Step;
      QueueAfter(trace, bs, run, init);
      AfterSnoc(trace, bs, run + init, e);
      var between := After(trace, bs, run + init);
      StepQueue(trace, bs, between, e);
      if e.LoaderTurn? {
        NotEmpty(between.toLoader, queue[t..]);
      }
      QueueStep(queue, t, between.toLoader, After(trace, bs, run + more).toLoader, e.LoaderTurn?);
    }
  }

  lemma NotEmpty(a: seq<Request>, b: seq<Request>)
    requires StartsWith(a, b) && b != []
    ensures a != []
  {
  }

  /** The state in which the loader comes to a request that event e added. */
  lemma ComesToRequest(
      trace: Trace, bs: seq<FrameBookmark>, run: seq<Event>, e: Event, more: seq<Event>, r: Request)
    requires After(trace, bs, run + [e]).toLoader == After(trace, bs, run).toLoader + [r]
    requires LoaderTurns(more) == |After(trace, bs, run).toLoader|
    ensures var s := After(trace, bs, run + [e] + more);
      s.toLoader != [] && s.toLoader[0] == r
    ensures After(trace, bs, run + [e] + more + [LoaderTurn])
      == Step(trace, bs, After(trace, bs, run + [e] + more), LoaderTurn)
  {
    QueueAfter(trace, bs, run + [e], more);
    AfterSnoc(trace, bs, run + [e] + more, LoaderTurn);
    hide After, Step;
    var queue, later := After(trace, bs, run + [e]).toLoader, After(trace, bs, run + [e] + more).toLoader;
    assert queue[|queue| - 1..] == [r];
    assert later[..1][0] == later[0];
  }

  // ----- the replies -----

  /** c is the least hit in [low, high). */
  predicate IsLeastHit(hits: set<nat>, low: int, high: int, c: int) {
    low <= c < high && c in hits && forall i :: low <= i < c ==> i !in hits
  }

  predicate IsGreatestHit(hits: set<nat>, high: int, c: int) {
    0 <= c < high && c in hits && forall i :: c < i < high ==> i !in hits
  }

  predicate NoHit(hits: set<nat>, low: int, high: int) {
    forall i :: low <= i < high ==> i !in hits
  }

  function LastReply(s: System): Option<Reply> {
    if s.toGui == [] then None else Some(s.toGui[|s.toGui| - 1])
  }

  /** When the loader comes to a search, it replies last with the call that a scan finds. */
  lemma SearchHandled(
      trace: Trace, bs: seq<FrameBookmark>, run: seq<Event>, forward: bool, i: nat, hits: set<nat>, found: Option<nat>)
    requires Partition(trace, bs) && i < |bs|
    requires After(trace, bs, run).toLoader != [] && After(trace, bs, run).toLoader[0] == Search(forward, i, hits)
    requires found == if forward then FirstHit(hits, bs[i].start, |trace|) else LastHit(hits, bs[i].End())
    ensures var reply := LastReply(Step(trace, bs, After(trace, bs, run), LoaderTurn));
      match found
      case Some(idx) => reply.Some? && reply.value.SearchFound? && reply.value.call.index == idx
      case None => reply == Some(SearchNotFound)
  {
    var s := After(trace, bs, run);
    RunKeeps(trace, bs, run);
    RunBatches(trace, bs, run);
    NextStart(trace, bs, i);
    if found.Some? {
      var idx := found.value;
      FrameOfMeaning(trace, bs, s.gui.frames, idx);
      HolderIsFrameOf(trace, bs, s.gui.frames, idx);
      ReportingTurn(trace, bs, s, idx);
      ReportedOwn(trace, bs, s, idx, true, Holder(bs, idx).value);
      hide Step, FetchCall, Partition, Inv, BatchInv, Holder;
    }
  }

  /** Where a forward search starts: behind the starting call if that is one of its frame's objects,
      else at the frame's first call. */
  ghost function SearchStart(bs: seq<FrameBookmark>, frames: seq<Frame>, f: nat, from: Option<Call>): nat
    requires f < |bs| == |frames|
  {
    if frames[f].loaded && from.Some?
      && (exists p :: 0 <= p < |frames[f].calls| && frames[f].calls[p].SameObject(from.value))
    then from.value.index + 1
    else bs[f].start
  }

  /** Where a backward search ends: before the starting call if that is one of its frame's objects;
      before the frame for another object and a loaded frame; else behind the frame. */
  ghost function SearchEnd(bs: seq<FrameBookmark>, frames: seq<Frame>, f: nat, from: Option<Call>): nat
    requires f < |bs| == |frames|
  {
    if frames[f].loaded && from.Some? then
      if exists p :: 0 <= p < |frames[f].calls| && frames[f].calls[p].SameObject(from.value) then from.value.index
      else bs[f].start
    else bs[f].End()
  }

  /** What the GUI finds by itself, and what it asks the loader for. */
  lemma NextOutcome(
      trace: Trace, bs: seq<FrameBookmark>, frames: seq<Frame>, f: nat, from: Option<Call>, hits: set<nat>, start: nat)
    requires Partition(trace, bs) && FramesFit(frames, bs) && f < |bs| == |frames|
    requires start == SearchStart(bs, frames, f, from)
    ensures var o := OnFindNext(frames, f, from, hits);
      && (o.Found? ==> IsLeastHit(hits, start, |trace|, o.call.index))
      && (o.Wrapped? ==> NoHit(hits, start, |trace|))
      && (o.Ask? ==> o.frame < |bs| && FirstHit(hits, bs[o.frame].start, |trace|) == FirstHit(hits, start, |trace|))
  {
    FindNextIsScan(trace, bs, frames, f, from, hits);
    NextFramesAsks(frames, f, hits);
    NextFramesAsks(frames, f + 1, hits);
    FirstHitIff(hits, start, |trace|, FirstHit(hits, start, |trace|));
    hide Partition, FramesFit, FirstHit, NextFrames, FirstInCalls;
  }

  lemma PrevOutcome(
      trace: Trace, bs: seq<FrameBookmark>, frames: seq<Frame>, f: nat, from: Option<Call>, hits: set<nat>, end: nat)
    requires Partition(trace, bs) && FramesFit(frames, bs) && f < |bs| == |frames|
    requires end == SearchEnd(bs, frames, f, from)
    ensures var o := OnFindPrev(frames, f, from, hits);
      && (o.Found? ==> IsGreatestHit(hits, end, o.call.index))
      && (o.Wrapped? ==> NoHit(hits, 0, end))
      && (o.Ask? ==> o.frame < |bs| && LastHit(hits, bs[o.frame].End()) == LastHit(hits, end))
  {
    FindPrevIsScan(trace, bs, frames, f, from, hits);
    PrevFramesAsks(frames, f, hits);
    PrevFramesAsks(frames, f + 1, hits);
    LastHitIff(hits, end, LastHit(hits, end));
    hide Partition, FramesFit, LastHit, PrevFrames, LastInCalls;
  }

  /** What a search adds to the queue. */
  lemma SearchAsks(trace: Trace, bs: seq<FrameBookmark>, s: System, f: nat, from: Option<Call>, hits: set<nat>)
    requires f < |bs| == |s.gui.frames|
    ensures var o := OnFindNext(s.gui.frames, f, from, hits);
      Step(trace, bs, s, UserFindNext(f, from, hits)).toLoader
        == if o.Ask? then s.toLoader + [Search(true, o.frame, hits)] else s.toLoader
    ensures var o := OnFindPrev(s.gui.frames, f, from, hits);
      Step(trace, bs, s, UserFindPrev(f, from, hits)).toLoader
        == if o.Ask? then s.toLoader + [Search(false, o.frame, hits)] else s.toLoader
  {
    hide OnFindNext, OnFindPrev;
  }

  /** The last reply to a search in [low, high): its least hit, or that there is none. */
  predicate NextReplied(reply: Option<Reply>, hits: set<nat>, low: nat, high: nat) {
    && reply.Some?
    && (if reply.value.SearchFound? then IsLeastHit(hits, low, high, reply.value.call.index)
        else reply.value.SearchNotFound? && NoHit(hits, low, high))
  }

  /** The last reply to a search below high: its greatest hit, or that there is none. */
  predicate PrevReplied(reply: Option<Reply>, hits: set<nat>, high: nat) {
    && reply.Some?
    && (if reply.value.SearchFound? then IsGreatestHit(hits, high, reply.value.call.index)
        else reply.value.SearchNotFound? && NoHit(hits, 0, high))
  }

  /** A search forwards is answered right.  If the GUI finds nothing up to an unloaded frame, the loader
      is asked; when the loader comes to that request, whatever has happened meanwhile, it replies last
      with the least matching call behind the start, or that there is none.  Otherwise the GUI has
      found that call, or there is none. */
  lemma FindNextAnswered(
      trace: Trace, bs: seq<FrameBookmark>, run: seq<Event>, f: nat, from: Option<Call>, hits: set<nat>,
      more: seq<Event>)
    requires Partition(trace, bs) && f < |bs|
    requires LoaderTurns(more) == |After(trace, bs, run).toLoader|
    ensures var s := After(trace, bs, run);
      var asked := run + [UserFindNext(f, from, hits)];
      var start := SearchStart(bs, s.gui.frames, f, from);
      var o := OnFindNext(s.gui.frames, f, from, hits);
      && (!o.Ask? ==> After(trace, bs, asked).toLoader == s.toLoader)
      && (o.Found? ==> IsLeastHit(hits, start, |trace|, o.call.index))
      && (o.Wrapped? ==> NoHit(hits, start, |trace|))
      && (o.Ask? ==> NextReplied(LastReply(After(trace, bs, asked + more + [LoaderTurn])), hits, start, |trace|))
  {
    var s, e := After(trace, bs, run), UserFindNext(f, from, hits);
    RunKeeps(trace, bs, run);
    AfterSnoc(trace, bs, run, e);
    SearchAsks(trace, bs, s, f, from, hits);
    var o, start := OnFindNext(s.gui.frames, f, from, hits), SearchStart(bs, s.gui.frames, f, from);
    NextOutcome(trace, bs, s.gui.frames, f, from, hits, start);
    hide *;
    if o.Ask? {
      var scan := FirstHit(hits, start, |trace|);
      ComesToRequest(trace, bs, run, e, more, Search(true, o.frame, hits));
      SearchHandled(trace, bs, run + [e] + more, true, o.frame, hits, scan);
      NextReply(LastReply(After(trace, bs, run + [e] + more + [LoaderTurn])), hits, start, |trace|);
    }
  }

  lemma NextReply(reply: Option<Reply>, hits: set<nat>, low: nat, high: nat)
    requires match FirstHit(hits, low, high)
      case Some(idx) => reply.Some? && reply.value.SearchFound? && reply.value.call.index == idx
      case None => reply == Some(SearchNotFound)
    ensures NextReplied(reply, hits, low, high)
  {
    FirstHitIff(hits, low, high, FirstHit(hits, low, high));
    hide FirstHit;
  }

  /** A search backwards likewise: the greatest matching call before the end. */
  lemma FindPrevAnswered(
      trace: Trace, bs: seq<FrameBookmark>, run: seq<Event>, f: nat, from: Option<Call>, hits: set<nat>,
      more: seq<Event>)
    requires Partition(trace, bs) && f < |bs|
    requires LoaderTurns(more) == |After(trace, bs, run).toLoader|
    ensures var s := After(trace, bs, run);
      var asked := run + [UserFindPrev(f, from, hits)];
      var end := SearchEnd(bs, s.gui.frames, f, from);
      var o := OnFindPrev(s.gui.frames, f, from, hits);
      && (!o.Ask? ==> After(trace, bs, asked).toLoader == s.toLoader)
      && (o.Found? ==> IsGreatestHit(hits, end, o.call.index))
      && (o.Wrapped? ==> NoHit(hits, 0, end))
      && (o.Ask? ==> PrevReplied(LastReply(After(trace, bs, asked + more + [LoaderTurn])), hits, end))
  {
    var s, e := After(trace, bs, run), UserFindPrev(f, from, hits);
    RunKeeps(trace, bs, run);
    AfterSnoc(trace, bs, run, e);
    SearchAsks(trace, bs, s, f, from, hits);
    var o, end := OnFindPrev(s.gui.frames, f, from, hits), SearchEnd(bs, s.gui.frames, f, from);
    PrevOutcome(trace, bs, s.gui.frames, f, from, hits, end);
    hide *;
    if o.Ask? {
      var scan := LastHit(hits, end);
      ComesToRequest(trace, bs, run, e, more, Search(false, o.frame, hits));
      SearchHandled(trace, bs, run + [e] + more, false, o.frame, hits, scan);
      PrevReply(LastReply(After(trace, bs, run + [e] + more + [LoaderTurn])), hits, end);
    }
  }

  lemma PrevReply(reply: Option<Reply>, hits: set<nat>, high: nat)
    requires match LastHit(hits, high)
      case Some(idx) => reply.Some? && reply.value.SearchFound? && reply.value.call.index == idx
      case None => reply == Some(SearchNotFound)
    ensures PrevReplied(reply, hits, high)
  {
    LastHitIff(hits, high, LastHit(hits, high));
    hide LastHit;
  }

  // ----- frames and calls asked for -----

  /** The start and the end of an unloaded frame, and a call of an unloaded frame, are asked of the
      loader; when the loader comes to the request, it replies last with just that. */
  lemma FrameStartAnswered(trace: Trace, bs: seq<FrameBookmark>, run: seq<Event>, f: nat, more: seq<Event>)
    requires Partition(trace, bs) && f < |bs| && !After(trace, bs, run).gui.frames[f].loaded
    requires LoaderTurns(more) == |After(trace, bs, run).toLoader|
    ensures LastReply(After(trace, bs, run + [UserFindFrameStart(f)] + more + [LoaderTurn])) == Some(FrameStartFound(f))
  {
    AfterSnoc(trace, bs, run, UserFindFrameStart(f));
    ComesToRequest(trace, bs, run, UserFindFrameStart(f), more, FindFrameStart(f));
    hide After, Fetch, LoaderTurns;
  }

  lemma FrameEndAnswered(trace: Trace, bs: seq<FrameBookmark>, run: seq<Event>, f: nat, more: seq<Event>)
    requires Partition(trace, bs) && f < |bs| && !After(trace, bs, run).gui.frames[f].loaded
    requires LoaderTurns(more) == |After(trace, bs, run).toLoader|
    ensures LastReply(After(trace, bs, run + [UserFindFrameEnd(f)] + more + [LoaderTurn])) == Some(FrameEndFound(f))
  {
    AfterSnoc(trace, bs, run, UserFindFrameEnd(f));
    ComesToRequest(trace, bs, run, UserFindFrameEnd(f), more, FindFrameEnd(f));
    hide After, Fetch, LoaderTurns;
  }

  lemma CallIndexAnswered(
      trace: Trace, bs: seq<FrameBookmark>, run: seq<Event>, g: nat, idx: nat, more: seq<Event>)
    requires Partition(trace, bs) && g < |bs| && bs[g].start <= idx < bs[g].End()
    requires !After(trace, bs, run).gui.frames[g].loaded
    requires LoaderTurns(more) == |After(trace, bs, run).toLoader|
    ensures var reply := LastReply(After(trace, bs, run + [UserFindCallIndex(idx)] + more + [LoaderTurn]));
      reply.Some? && reply.value.CallFound? && reply.value.call.index == idx
  {
    var s, e := After(trace, bs, run), UserFindCallIndex(idx);
    RunKeeps(trace, bs, run);
    AfterSnoc(trace, bs, run, e);
    FrameOfMeaning(trace, bs, s.gui.frames, idx);
    HolderIsFrameOf(trace, bs, s.gui.frames, idx);
    assert Step(trace, bs, s, e).toLoader == s.toLoader + [FindCallIndex(idx)];
    hide Step, After, FrameOf, Holder;
    ComesToRequest(trace, bs, run, e, more, FindCallIndex(idx));
    RunKeeps(trace, bs, run + [e] + more);
    RunBatches(trace, bs, run + [e] + more);
    ReportingTurn(trace, bs, After(trace, bs, run + [e] + more), idx);
    ReportedOwn(trace, bs, After(trace, bs, run + [e] + more), idx, false, g);
    hide Partition, Inv, BatchInv, FetchCall;
  }

  /** A frame that the loader was asked to load is loaded, or its contents are under way, when the
      loader has come to the request. */
  lemma LoadAnswered(trace: Trace, bs: seq<FrameBookmark>, run: seq<Event>, f: nat, more: seq<Event>)
    requires Partition(trace, bs) && f < |bs|
    requires !After(trace, bs, run).gui.frames[f].loaded && f !in After(trace, bs, run).gui.loading
    requires LoaderTurns(more) == |After(trace, bs, run).toLoader|
    ensures var s := After(trace, bs, run + [UserLoadFrame(f)] + more + [LoaderTurn]);
      f in LoadedFrames(s.gui) || f in Arriving(s.toGui)
  {
    AfterSnoc(trace, bs, run, UserLoadFrame(f));
    ComesToRequest(trace, bs, run, UserLoadFrame(f), more, LoadFrame(f));
    var s := After(trace, bs, run + [UserLoadFrame(f)] + more);
    RunKeeps(trace, bs, run + [UserLoadFrame(f)] + more);
    FetchKeeps(trace, bs, s, f);
    HandleTaken(trace, bs, s, LoadFrame(f));
    hide After, Partition, Inv, Fetch;
  }

  // ----- a frame is requested once -----

  /** How many requests to load frame f there are. */
  function Loads(rs: seq<Request>, f: nat): nat {
    if rs == [] then 0 else Loads(rs[..|rs| - 1], f) + if rs[|rs| - 1] == LoadFrame(f) then 1 else 0
  }

  /** The requests that an event adds. */
  function Added(trace: Trace, bs: seq<FrameBookmark>, s: System, e: Event): seq<Request>
    requires |bs| == |s.gui.frames|
  {
    if e.LoaderTurn? then []
    else
      StepQueue(trace, bs, s, e);
      Step(trace, bs, s, e).toLoader[|s.toLoader|..]
  }

  /** All requests of a run. */
  function Sent(trace: Trace, bs: seq<FrameBookmark>, run: seq<Event>): seq<Request> {
    if run == [] then []
    else
      var init := run[..|run| - 1];
      Sent(trace, bs, init) + Added(trace, bs, After(trace, bs, init), run[|run| - 1])
  }

  lemma {:induction false} LoadsConcat(a: seq<Request>, b: seq<Request>, f: nat)
    ensures Loads(a + b, f) == Loads(a, f) + Loads(b, f)
    decreases |b|
  {
    if b == [] {
      assert a + b == a;
    } else {
      assert (a + b)[..|a + b| - 1] == a + b[..|b| - 1];
      LoadsConcat(a, b[..|b| - 1], f);
    }
  }

  /** Frame f is loaded or counts as loading. */
  predicate Claimed(s: System, f: nat) {
    f in s.gui.loading || (f < |s.gui.frames| && s.gui.frames[f].loaded)
  }

  /** Only a frame that is neither loaded nor loading is requested, once, and it counts as loading
      then; it stays loading until it is loaded. */
  lemma StepClaims(trace: Trace, bs: seq<FrameBookmark>, s: System, e: Event, f: nat)
    requires Inv(bs, s)
    ensures Loads(Added(trace, bs, s, e), f) <= if Claimed(s, f) then 0 else 1
    ensures Loads(Added(trace, bs, s, e), f) == 1 ==> Claimed(Step(trace, bs, s, e), f)
    ensures Claimed(s, f) ==> Claimed(Step(trace, bs, s, e), f)
  {
    if !e.LoaderTurn? && !e.GuiTurn? {
      AddedIs(trace, bs, s, e);
      var added := Added(trace, bs, s, e);
      assert |added| == 1 ==> added[..0] == [];
      hide Inv, OnFindNext, OnFindPrev, Added;
    } else if e.LoaderTurn? {
      assert Added(trace, bs, s, e) == [];
      HandleKeepsGui(trace, bs, s);
      hide Inv, Handle;
    } else {
      assert Added(trace, bs, s, e) == [];
      GuiTurnClaims(trace, bs, s, f);
      hide Inv, OnFrameLoaded;
    }
  }

  lemma HandleKeepsGui(trace: Trace, bs: seq<FrameBookmark>, s: System)
    requires |bs| == |s.gui.frames|
    ensures Step(trace, bs, s, LoaderTurn).gui == s.gui
  {
  }

  lemma GuiTurnClaims(trace: Trace, bs: seq<FrameBookmark>, s: System, f: nat)
    requires |bs| == |s.gui.frames|
    ensures Claimed(s, f) ==> Claimed(Step(trace, bs, s, GuiTurn), f)
  {
    hide ApplyQueue;
  }

  /** An event of the user, or an error, adds at most one request. */
  lemma AddedIs(trace: Trace, bs: seq<FrameBookmark>, s: System, e: Event)
    requires |bs| == |s.gui.frames| && !e.LoaderTurn? && !e.GuiTurn?
    ensures |Added(trace, bs, s, e)| <= 1
    ensures forall g :: LoadFrame(g) in Added(trace, bs, s, e) ==>
      !Claimed(s, g) && g in Step(trace, bs, s, e).gui.loading
    ensures forall g :: Claimed(s, g) ==> Claimed(Step(trace, bs, s, e), g)
  {
    var q := s.toLoader;
    assert q[|q|..] == [] && forall r :: (q + [r])[|q|..] == [r];
    assert q + [] == q;
    hide OnFindNext, OnFindPrev, FrameOf, IndexOf;
  }

  /** Over a whole run, every frame is requested at most once. */
  lemma {:induction false} RequestedOnce(trace: Trace, bs: seq<FrameBookmark>, run: seq<Event>, f: nat)
    requires Partition(trace, bs)
    ensures Loads(Sent(trace, bs, run), f) <= 1
    ensures Loads(Sent(trace, bs, run), f) == 1 ==> Claimed(After(trace, bs, run), f)
    decreases |run|
  {
    if run != [] {
      var init, e := run[..|run| - 1], run[|run| - 1];
      RequestedOnce(trace, bs, init, f);
      RunKeeps(trace, bs, init);
      StepClaims(trace, bs, After(trace, bs, init), e, f);
      LoadsConcat(Sent(trace, bs, init), Added(trace, bs, After(trace, bs, init), e), f);
      hide Step, Added, Claimed, Loads, Partition, Inv;
    }
  }
}
