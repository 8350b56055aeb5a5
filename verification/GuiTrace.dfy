/** The GUI's side of a trace: its frames, the errors reported for its calls, and the searches it
    answers or hands to the loader (gui/apitrace.cpp, gui/apitracecall.cpp). */
module GuiTrace {
  import opened Options
  import opened TraceScan

  /** A call object.  Objects are told apart by the call's number and by the reply that delivered
      them: every time the loader parses a frame it makes new objects. */
  datatype Call = Call(index: nat, batch: nat, error: string) {
    predicate SameObject(c: Call) { index == c.index && batch == c.batch }
  }

  datatype Frame = Frame(callsToLoad: nat, loaded: bool, calls: seq<Call>) {
    /** How many calls the frame counts for: those it has, or those it is expected to get. */
    function Size(): nat { if loaded then |calls| else callsToLoad }
  }

  /** An error for a call of a frame that is not loaded yet. */
  datatype QueuedError = QueuedError(frame: nat, callIndex: int, message: string)

  /** What the GUI asks of the loader. */
  datatype Request =
    | LoadFrame(frame: nat)
    | FindFrameStart(frame: nat)
    | FindFrameEnd(frame: nat)
    | FindCallIndex(index: int)
    | Search(forward: bool, frame: nat, hits: set<nat>)

  datatype Gui = Gui(frames: seq<Frame>, loading: set<nat>, queued: seq<QueuedError>, errors: set<nat>)

  // ----- finding frames and calls -----

  /** The number of calls counted for the first k frames. */
  function Before(frames: seq<Frame>, k: nat): nat
    requires k <= |frames|
  {
    if k == 0 then 0 else Before(frames, k - 1) + frames[k - 1].Size()
  }

  function FrameFrom(frames: seq<Frame>, callIdx: int, k: nat): (r: Option<nat>)
    requires k <= |frames|
    ensures r.Some? ==> k <= r.value < |frames| && Before(frames, r.value) <= callIdx < Before(frames, r.value + 1)
    decreases |frames| - k
  {
    if k == |frames| then None
    else if Before(frames, k) <= callIdx < Before(frames, k + 1) then Some(k)
    else FrameFrom(frames, callIdx, k + 1)
  }

  function FrameOf(frames: seq<Frame>, callIdx: int): (r: Option<nat>)
    ensures r.Some? ==> r.value < |frames|
  {
    FrameFrom(frames, callIdx, 0)
  }

  /** The position of the call numbered idx. */
  function IndexOf(calls: seq<Call>, idx: int): (r: Option<nat>)
    ensures r.Some? ==> r.value < |calls| && calls[r.value].index == idx
    ensures r.None? ==> (forall p :: 0 <= p < |calls| ==> calls[p].index != idx)
  {
    if calls == [] then None
    else if calls[0].index == idx then Some(0)
    else match IndexOf(calls[1..], idx) case None => None case Some(p) => Some(p + 1)
  }

  /** f holds exactly the calls of bookmark b, all from one reply, or waits for them. */
  ghost predicate FrameFits(f: Frame, b: FrameBookmark) {
    && f.callsToLoad == b.numberOfCalls
    && if f.loaded then CallsFit(f.calls, b) else f.calls == []
  }

  ghost predicate CallsFit(calls: seq<Call>, b: FrameBookmark) {
    && |calls| == b.numberOfCalls
    && forall p :: 0 <= p < |calls| ==> calls[p].index == b.start + p && calls[p].batch == calls[0].batch
  }

  ghost predicate FramesFit(frames: seq<Frame>, bs: seq<FrameBookmark>) {
    |frames| == |bs| && forall k :: 0 <= k < |bs| ==> FrameFits(frames[k], bs[k])
  }

  lemma {:induction false} BeforeIsStart(trace: Trace, bs: seq<FrameBookmark>, frames: seq<Frame>, k: nat)
    requires Partition(trace, bs) && FramesFit(frames, bs) && k < |bs|
    ensures Before(frames, k) == bs[k].start && Before(frames, k + 1) == bs[k].End() <= |trace|
    decreases k
  {
    NextStart(trace, bs, k);
    assert FrameFits(frames[k], bs[k]);
    if k > 0 {
      BeforeIsStart(trace, bs, frames, k - 1);
    }
  }

  /** The frame that the scan put the call in is the one found, whichever frames are loaded. */
  lemma {:induction false} FrameFromMeaning(
      trace: Trace, bs: seq<FrameBookmark>, frames: seq<Frame>, callIdx: int, k: nat, j: nat)
    requires Partition(trace, bs) && FramesFit(frames, bs) && j <= k < |bs|
    requires bs[k].start <= callIdx < bs[k].End()
    ensures FrameFrom(frames, callIdx, j) == Some(k)
    decreases |bs| - j
  {
    BeforeIsStart(trace, bs, frames, j);
    if j < k {
      StartsAscend(trace, bs, j, k);
      FrameFromMeaning(trace, bs, frames, callIdx, k, j + 1);
    }
  }

  lemma FrameOfMeaning(trace: Trace, bs: seq<FrameBookmark>, frames: seq<Frame>, callIdx: int)
    requires Partition(trace, bs) && FramesFit(frames, bs)
    ensures FrameOf(frames, callIdx).Some? <==> 0 <= callIdx < |trace|
    ensures forall k :: 0 <= k < |bs| ==>
      (bs[k].start <= callIdx < bs[k].End() <==> FrameOf(frames, callIdx) == Some(k))
  {
    forall k | 0 <= k < |bs|
      ensures bs[k].start <= callIdx < bs[k].End() <==> FrameOf(frames, callIdx) == Some(k)
    {
      BeforeIsStart(trace, bs, frames, k);
      if bs[k].start <= callIdx < bs[k].End() {
        FrameFromMeaning(trace, bs, frames, callIdx, k, 0);
      }
    }
    if 0 <= callIdx < |trace| {
      if bs != [] {
        NextStart(trace, bs, |bs| - 1);
      }
      var k := HoldingFrame(trace, bs, callIdx, |bs|);
      FrameFromMeaning(trace, bs, frames, callIdx, k, 0);
    } else if FrameOf(frames, callIdx).Some? {
      BeforeIsStart(trace, bs, frames, FrameOf(frames, callIdx).value);
    }
  }

  lemma {:induction false} HoldingFrame(trace: Trace, bs: seq<FrameBookmark>, i: nat, n: nat) returns (k: nat)
    requires Partition(trace, bs) && n <= |bs|
    requires i < if n == 0 then 0 else bs[n - 1].End()
    requires n < |bs| || i < |trace|
    ensures k < |bs| && bs[k].start <= i < bs[k].End()
    decreases n
  {
    NextStart(trace, bs, n - 1);
    if bs[n - 1].start <= i {
      k := n - 1;
    } else {
      k := HoldingFrame(trace, bs, i, n - 1);
    }
  }

  // ----- loading and errors, as functions of the state -----

  function OnLoadFrame(g: Gui, f: nat): (Gui, seq<Request>) {
    if f in g.loading then (g, [])
    else (g.(loading := g.loading + {f}), [LoadFrame(f)])
  }

  /** The call's error text is replaced; the set of calls with an error follows. */
  function WithError(calls: seq<Call>, p: nat, message: string): seq<Call>
    requires p < |calls|
  {
    calls[p := calls[p].(error := message)]
  }

  function NoteError(errors: set<nat>, idx: nat, message: string): set<nat> {
    if message != "" then errors + {idx} else errors - {idx}
  }

  datatype Applied = Applied(calls: seq<Call>, errors: set<nat>, kept: seq<QueuedError>)

  /** The queue's errors for frame f go to the calls that they name, in order; the others stay. */
  function ApplyQueue(f: nat, calls: seq<Call>, errors: set<nat>, queue: seq<QueuedError>): Applied
    decreases |queue|
  {
    if queue == [] then Applied(calls, errors, [])
    else
      var q := queue[0];
      var p := IndexOf(calls, q.callIndex);
      if q.frame == f && p.Some? then
        ApplyQueue(f, WithError(calls, p.value, q.message),
                   NoteError(errors, calls[p.value].index, q.message), queue[1..])
      else
        var rest := ApplyQueue(f, calls, errors, queue[1..]);
        rest.(kept := [q] + rest.kept)
  }

  function Prepend(kept: seq<QueuedError>, a: Applied): Applied { a.(kept := kept + a.kept) }

  function Without(queue: seq<QueuedError>, i: nat): seq<QueuedError>
    requires i < |queue|
  {
    queue[..i] + queue[i + 1..]
  }

  /** One step of walking the queue: the entries before itr stay, those from itr on are still to
      be looked at. */
  lemma QueueStep(f: nat, calls: seq<Call>, errors: set<nat>, queue: seq<QueuedError>, itr: nat, all: Applied)
    requires itr < |queue|
    requires all == Prepend(queue[..itr], ApplyQueue(f, calls, errors, queue[itr..]))
    ensures var q, p := queue[itr], IndexOf(calls, queue[itr].callIndex);
      if q.frame == f && p.Some? then
        all == Prepend(Without(queue, itr)[..itr],
                       ApplyQueue(f, WithError(calls, p.value, q.message),
                                  NoteError(errors, calls[p.value].index, q.message),
                                  Without(queue, itr)[itr..]))
      else all == Prepend(queue[..itr + 1], ApplyQueue(f, calls, errors, queue[itr + 1..]))
  {
    assert queue[itr..][1..] == queue[itr + 1..];
    assert Without(queue, itr)[..itr] == queue[..itr];
    assert Without(queue, itr)[itr..] == queue[itr + 1..];
    var rest := ApplyQueue(f, calls, errors, queue[itr + 1..]);
    assert queue[..itr] + ([queue[itr]] + rest.kept) == queue[..itr + 1] + rest.kept;
  }

  function OnFrameLoaded(g: Gui, f: nat, calls: seq<Call>): Gui
    requires f < |g.frames|
  {
    var frame := if g.frames[f].loaded then g.frames[f] else Frame(g.frames[f].callsToLoad, true, calls);
    var loading := if g.frames[f].loaded then g.loading else g.loading - {f};
    var a := ApplyQueue(f, frame.calls, g.errors, g.queued);
    Gui(g.frames[f := frame.(calls := a.calls)], loading, a.kept, a.errors)
  }

  function OnError(g: Gui, idx: int, message: string): (Gui, seq<Request>) {
    match FrameOf(g.frames, idx)
    case None => (g, [])
    case Some(f) =>
      if g.frames[f].loaded then
        match IndexOf(g.frames[f].calls, idx)
        case None => (g, [])
        case Some(p) =>
          (g.(frames := g.frames[f := g.frames[f].(calls := WithError(g.frames[f].calls, p, message))],
              errors := NoteError(g.errors, g.frames[f].calls[p].index, message)), [])
      else
        var (g', sent) := OnLoadFrame(g, f);
        (g'.(queued := g'.queued + [QueuedError(f, idx, message)]), sent)
  }

  // ----- searching, as functions of the state -----

  /** The outcome of a search in the loaded frames: a call, nothing, or the loader is asked to go
      on from an unloaded frame. */
  datatype Outcome = Found(call: Call) | Wrapped | Ask(frame: nat)

  function FirstInCalls(calls: seq<Call>, from: nat, hits: set<nat>): (r: Option<nat>)
    ensures r.Some? ==> from <= r.value < |calls|
    decreases (|calls| as int) - from
  {
    if from >= |calls| then None
    else if calls[from].index in hits then Some(from)
    else FirstInCalls(calls, from + 1, hits)
  }

  function LastInCalls(calls: seq<Call>, to: nat, hits: set<nat>): (r: Option<nat>)
    requires to <= |calls|
    ensures r.Some? ==> r.value < to
  {
    if to == 0 then None
    else if calls[to - 1].index in hits then Some(to - 1)
    else LastInCalls(calls, to - 1, hits)
  }

  /** The position of the very object c; -1 if it is not there. */
  function PositionOf(calls: seq<Call>, c: Call): (p: int)
    ensures -1 <= p < |calls|
    ensures p >= 0 ==> calls[p].SameObject(c)
    ensures p == -1 ==> (forall i :: 0 <= i < |calls| ==> !calls[i].SameObject(c))
  {
    if calls == [] then -1
    else if calls[0].SameObject(c) then 0
    else
      var p := PositionOf(calls[1..], c);
      if p < 0 then -1 else p + 1
  }

  /** Searching on from the start of frame i. */
  function NextFrames(frames: seq<Frame>, i: nat, hits: set<nat>): Outcome
    decreases (|frames| as int) - i
  {
    if i >= |frames| then Wrapped
    else if !frames[i].loaded then Ask(i)
    else
      match FirstInCalls(frames[i].calls, 0, hits)
      case Some(p) => Found(frames[i].calls[p])
      case None => NextFrames(frames, i + 1, hits)
  }

  function OnFindNext(frames: seq<Frame>, f: nat, from: Option<Call>, hits: set<nat>): Outcome
    requires f < |frames|
  {
    if frames[f].loaded then
      var start := if from.None? then 0 else PositionOf(frames[f].calls, from.value) + 1;
      match FirstInCalls(frames[f].calls, start, hits)
      case Some(p) => Found(frames[f].calls[p])
      case None => NextFrames(frames, f + 1, hits)
    else NextFrames(frames, f, hits)
  }

  /** Searching backwards from the end of frame i - 1. */
  function PrevFrames(frames: seq<Frame>, i: nat, hits: set<nat>): Outcome
    requires i <= |frames|
  {
    if i == 0 then Wrapped
    else if !frames[i - 1].loaded then Ask(i - 1)
    else
      match LastInCalls(frames[i - 1].calls, |frames[i - 1].calls|, hits)
      case Some(p) => Found(frames[i - 1].calls[p])
      case None => PrevFrames(frames, i - 1, hits)
  }

  /** Where a backward search in a loaded frame ends: before `from`.  For an object that is not in
      the frame nothing of the frame is searched. */
  function PrevStart(calls: seq<Call>, from: Option<Call>): (to: nat)
    ensures to <= |calls|
  {
    if from.None? then |calls|
    else
      var p := PositionOf(calls, from.value);
      if p < 0 then 0 else p
  }

  function OnFindPrev(frames: seq<Frame>, f: nat, from: Option<Call>, hits: set<nat>): Outcome
    requires f < |frames|
  {
    if frames[f].loaded then
      match LastInCalls(frames[f].calls, PrevStart(frames[f].calls, from), hits)
      case Some(p) => Found(frames[f].calls[p])
      case None => PrevFrames(frames, f, hits)
    else PrevFrames(frames, f + 1, hits)
  }

  // ----- the class -----

  class ApiTrace {
    var m_frames: seq<Frame>
    var m_loadingFrames: set<nat>
    var m_queuedErrors: seq<QueuedError>
    var m_errors: set<nat>
    /** The signals sent to the loader so far. */
    var requests: seq<Request>

    constructor (frames: seq<Frame>)
      ensures View() == Gui(frames, {}, [], {}) && requests == []
    {
      m_frames, m_loadingFrames, m_queuedErrors, m_errors := frames, {}, [], {};
      requests := [];
    }

    function View(): Gui
      reads this
    {
      Gui(m_frames, m_loadingFrames, m_queuedErrors, m_errors)
    }

    /** Callers load only frames that are not loaded. */
    method RequestFrame(f: nat)
      requires f < |m_frames| && (f !in m_loadingFrames ==> !m_frames[f].loaded)
      modifies this
      ensures View() == OnLoadFrame(old(View()), f).0
      ensures requests == old(requests) + OnLoadFrame(old(View()), f).1
    {
      if f !in m_loadingFrames {
        m_loadingFrames := m_loadingFrames + {f};
        requests := requests + [LoadFrame(f)];
      }
    }

    method CallInFrame(callIdx: int) returns (frameIdx: int)
      ensures frameIdx == match FrameOf(m_frames, callIdx) case None => -1 case Some(f) => f
    {
      var numCalls := 0;
      frameIdx := 0;
      while frameIdx < |m_frames|
        invariant 0 <= frameIdx <= |m_frames|
        invariant numCalls == Before(m_frames, frameIdx)
        invariant FrameFrom(m_frames, callIdx, frameIdx) == FrameOf(m_frames, callIdx)
      {
        var frame := m_frames[frameIdx];
        var numCallsInFrame := if frame.loaded then |frame.calls| else frame.callsToLoad;
        var firstCall, endCall := numCalls, numCalls + numCallsInFrame;
        if firstCall <= callIdx && endCall > callIdx {
          return;
        }
        numCalls := endCall;
        frameIdx := frameIdx + 1;
      }
      return -1;
    }

    /** `found`: the GUI answers at once; else the loader is asked. */
    method AskFrameStart(f: nat) returns (found: bool)
      requires f < |m_frames|
      modifies this`requests
      ensures found == m_frames[f].loaded
      ensures requests == old(requests) + (if found then [] else [FindFrameStart(f)])
    {
      found := m_frames[f].loaded;
      if !found {
        requests := requests + [FindFrameStart(f)];
      }
    }

    method AskFrameEnd(f: nat) returns (found: bool)
      requires f < |m_frames|
      modifies this`requests
      ensures found == m_frames[f].loaded
      ensures requests == old(requests) + (if found then [] else [FindFrameEnd(f)])
    {
      found := m_frames[f].loaded;
      if !found {
        requests := requests + [FindFrameEnd(f)];
      }
    }

    /** The GUI answers at once for a number that no frame holds, and for a call of a loaded frame. */
    method AskCallIndex(index: int) returns (answered: bool, call: Option<Call>)
      modifies this`requests
      ensures var f := FrameOf(m_frames, index);
        && (answered <==> f.Some? ==> m_frames[f.value].loaded)
        && (f.None? ==> call == None)
        && (f.Some? && answered ==> forall c :: call == Some(c) ==> c in m_frames[f.value].calls && c.index == index)
        && (f.Some? && answered && call == None ==> forall c :: c in m_frames[f.value].calls ==> c.index != index)
      ensures requests == old(requests) + (if answered then [] else [FindCallIndex(index)])
    {
      var frameIdx := CallInFrame(index);
      if frameIdx < 0 {
        return true, None;
      }
      var frame := m_frames[frameIdx];
      if frame.loaded {
        var p := CallWithIndex(frame.calls, index);
        return true, if p.Some? then Some(frame.calls[p.value]) else None;
      }
      requests := requests + [FindCallIndex(index)];
      return false, None;
    }

    /** Frame f's callWithIndex. */
    method CallWithIndex(calls: seq<Call>, index: int) returns (p: Option<nat>)
      ensures p == IndexOf(calls, index)
    {
      var i := 0;
      while i < |calls|
        invariant 0 <= i <= |calls|
        invariant IndexOf(calls, index) ==
          match IndexOf(calls[i..], index) case None => None case Some(q) => Some(q + i)
      {
        if calls[i].index == index {
          return Some(i);
        }
        assert calls[i..][1..] == calls[i + 1..];
        i := i + 1;
      }
      return None;
    }

    /** The frame's contents arrive; then the queue is walked once, and errors that found their
        call are erased from it. */
    method LoaderFrameLoaded(f: nat, calls: seq<Call>)
      requires f < |m_frames|
      modifies this
      ensures View() == OnFrameLoaded(old(View()), f, calls)
      ensures requests == old(requests)
    {
      if !m_frames[f].loaded {
        m_frames := m_frames[f := Frame(m_frames[f].callsToLoad, true, calls)];
        m_loadingFrames := m_loadingFrames - {f};
      }
      ApplyQueuedErrors(f);
    }

    /** The walk over the queued errors when frame f is loaded. */
    method ApplyQueuedErrors(f: nat)
      requires f < |m_frames|
      modifies this`m_frames, this`m_queuedErrors, this`m_errors
      ensures var a := ApplyQueue(f, old(m_frames[f].calls), old(m_errors), old(m_queuedErrors));
        && m_frames == old(m_frames)[f := old(m_frames[f]).(calls := a.calls)]
        && m_errors == a.errors && m_queuedErrors == a.kept
    {
      ghost var all := ApplyQueue(f, m_frames[f].calls, m_errors, m_queuedErrors);
      var calls, itr := m_frames[f].calls, 0;
      assert m_queuedErrors[0..] == m_queuedErrors;
      while itr < |m_queuedErrors|
        invariant 0 <= itr <= |m_queuedErrors|
        invariant all == Prepend(m_queuedErrors[..itr], ApplyQueue(f, calls, m_errors, m_queuedErrors[itr..]))
        invariant m_frames == old(m_frames)
        decreases |m_queuedErrors| - itr
      {
        var error := m_queuedErrors[itr];
        QueueStep(f, calls, m_errors, m_queuedErrors, itr, all);
        if error.frame == f {
          var call := CallWithIndex(calls, error.callIndex);
          if call.None? {
            itr := itr + 1;
            continue;
          }
          var p := call.value;
          var index := calls[p].index;
          calls := calls[p := calls[p].(error := error.message)];
          m_queuedErrors := m_queuedErrors[..itr] + m_queuedErrors[itr + 1..];
          if calls[p].error != "" {
            m_errors := m_errors + {index};
          } else {
            m_errors := m_errors - {index};
          }
        } else {
          itr := itr + 1;
        }
      }
      assert m_queuedErrors[..itr] + [] == m_queuedErrors;
      m_frames := m_frames[f := m_frames[f].(calls := calls)];
    }

    /** An error reported for a call: set at once if the call's frame is loaded, else queued. */
    method SetCallError(callIndex: int, message: string)
      requires forall f :: f in m_loadingFrames ==> f < |m_frames| && !m_frames[f].loaded
      modifies this
      ensures View() == OnError(old(View()), callIndex, message).0
      ensures requests == old(requests) + OnError(old(View()), callIndex, message).1
    {
      var frameIdx := CallInFrame(callIndex);
      if frameIdx < 0 {
        return;
      }
      var f: nat := frameIdx;
      if m_frames[f].loaded {
        var call := CallWithIndex(m_frames[f].calls, callIndex);
        if call.Some? {
          var p := call.value;
          var c := m_frames[f].calls[p].(error := message);
          m_frames := m_frames[f := m_frames[f].(calls := m_frames[f].calls[p := c])];
          if c.error != "" {
            m_errors := m_errors + {c.index};
          } else {
            m_errors := m_errors - {c.index};
          }
        }
      } else {
        RequestFrame(f);
        m_queuedErrors := m_queuedErrors + [QueuedError(f, callIndex, message)];
      }
    }

    /** A loaded frame's findNextCall. */
    method FindNextCall(calls: seq<Call>, from: Option<Call>, hits: set<nat>) returns (p: Option<nat>)
      ensures p == FirstInCalls(calls, if from.None? then 0 else PositionOf(calls, from.value) + 1, hits)
    {
      var callIndex: nat := 0;
      if from.Some? {
        callIndex := PositionOf(calls, from.value) + 1;
      }
      for i := callIndex to |calls|
        invariant FirstInCalls(calls, callIndex, hits) == FirstInCalls(calls, i, hits)
      {
        if calls[i].index in hits {
          return Some(i);
        }
      }
      return None;
    }

    /** A loaded frame's findPrevCall. */
    method FindPrevCall(calls: seq<Call>, from: Option<Call>, hits: set<nat>) returns (p: Option<nat>)
      ensures p == LastInCalls(calls, PrevStart(calls, from), hits)
    {
      var i := |calls| - 1;
      if from.Some? {
        i := PositionOf(calls, from.value) - 1;
      }
      while i >= 0
        invariant -2 <= i < |calls|
        invariant LastInCalls(calls, PrevStart(calls, from), hits)
          == LastInCalls(calls, if i < 0 then 0 else i + 1, hits)
        decreases i + 2
      {
        if calls[i].index in hits {
          return Some(i);
        }
        i := i - 1;
      }
      return None;
    }

    method FindNext(f: nat, from: Option<Call>, hits: set<nat>) returns (outcome: Outcome)
      requires f < |m_frames|
      modifies this`requests
      ensures outcome == OnFindNext(m_frames, f, from, hits)
      ensures requests == old(requests) + (if outcome.Ask? then [Search(true, outcome.frame, hits)] else [])
    {
      var frameIdx := f;
      if m_frames[f].loaded {
        var p := FindNextCall(m_frames[f].calls, from, hits);
        if p.Some? {
          return Found(m_frames[f].calls[p.value]);
        }
        frameIdx := frameIdx + 1;
      }
      var i := frameIdx;
      while i < |m_frames|
        invariant NextFrames(m_frames, i, hits) == OnFindNext(m_frames, f, from, hits)
        invariant requests == old(requests)
      {
        if !m_frames[i].loaded {
          requests := requests + [Search(true, i, hits)];
          return Ask(i);
        }
        var p := FindNextCall(m_frames[i].calls, None, hits);
        if p.Some? {
          return Found(m_frames[i].calls[p.value]);
        }
        i := i + 1;
      }
      return Wrapped;
    }

    method FindPrev(f: nat, from: Option<Call>, hits: set<nat>) returns (outcome: Outcome)
      requires f < |m_frames|
      modifies this`requests
      ensures outcome == OnFindPrev(m_frames, f, from, hits)
      ensures requests == old(requests) + (if outcome.Ask? then [Search(false, outcome.frame, hits)] else [])
    {
      var frameIdx: int := f;
      if m_frames[f].loaded {
        var p := FindPrevCall(m_frames[f].calls, from, hits);
        if p.Some? {
          return Found(m_frames[f].calls[p.value]);
        }
        frameIdx := frameIdx - 1;
      }
      var i := frameIdx;
      while i >= 0
        invariant -1 <= i < |m_frames|
        invariant PrevFrames(m_frames, i + 1, hits) == OnFindPrev(m_frames, f, from, hits)
        invariant requests == old(requests)
      {
        if !m_frames[i].loaded {
          requests := requests + [Search(false, i, hits)];
          return Ask(i);
        }
        var p := FindPrevCall(m_frames[i].calls, None, hits);
        if p.Some? {
          return Found(m_frames[i].calls[p.value]);
        }
        i := i - 1;
      }
      return Wrapped;
    }
  }
}
