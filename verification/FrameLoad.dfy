/** TraceLoader::FrameContents::load: the lists, parent pointers and child lists it builds.  A
    pointer to a call is the call's position in m_allCalls. */
module FrameLoad {
  import opened Options
  import opened TraceScan
  import opened CallForest

  datatype ApiTraceCall = ApiTraceCall(index: nat, flags: TraceCall, parentCall: Option<nat>, children: seq<nat>)

  /** numOfCalls calls from start on, of which only the last may be END_FRAME, and must be unless
      the trace ends there. */
  ghost predicate IsFrame(trace: Trace, start: nat, numOfCalls: nat) {
    && numOfCalls > 0
    && start + numOfCalls <= |trace|
    && (start + numOfCalls < |trace| ==> trace[start + numOfCalls - 1].endFrame)
    && forall i :: start <= i < start + numOfCalls - 1 ==> !trace[i].endFrame
  }

  /** Every frame that the scan found can be loaded from its bookmark. */
  lemma ScannedFrames(trace: Trace, bs: seq<FrameBookmark>, k: nat)
    requires Partition(trace, bs) && k < |bs|
    ensures IsFrame(trace, bs[k].start, bs[k].numberOfCalls)
  {
    assert FrameOk(trace, bs, k, |trace|);
    if k < |bs| - 1 {
      assert FrameOk(trace, bs, k + 1, |trace|);
    }
  }

  /** Call i of all: its number, flags, parent pointer and child list are those of position i in
      the forest over the first n calls of cs. */
  ghost predicate CallOk(c: ApiTraceCall, cs: Trace, start: nat, n: nat, i: nat)
    requires i < n <= |cs|
  {
    c == ApiTraceCall(start + i, cs[i], Parent(cs, i), Children(cs, n, Some(i)))
  }

  ghost predicate CallsOk(all: seq<ApiTraceCall>, cs: Trace, start: nat) {
    |all| <= |cs| && forall i :: 0 <= i < |all| ==> CallOk(all[i], cs, start, |all|, i)
  }

  lemma NoChildrenYet(cs: Trace, n: nat)
    requires n < |cs|
    ensures Children(cs, n + 1, Some(n)) == []
  {
    var kids := Children(cs, n + 1, Some(n));
    if |kids| > 0 {
      ChildRange(cs, n + 1, Some(n), 0);
    }
  }

  lemma KeepsChildren(cs: Trace, n: nat, i: nat)
    requires n < |cs| && i <= n
    ensures Children(cs, n + 1, Some(i)) ==
      if i == n then []
      else if Parent(cs, n) == Some(i) then Children(cs, n, Some(i)) + [n]
      else Children(cs, n, Some(i))
  {
    NoChildrenYet(cs, n);
    var kids := Children(cs, n, Some(i));
    assert kids + [] == kids;
  }

  /** addChild on the innermost open group, if there is one. */
  function WithChild(all: seq<ApiTraceCall>, group: Option<nat>, child: nat): (all': seq<ApiTraceCall>)
    ensures |all'| == |all|
    ensures forall i :: 0 <= i < |all| ==>
      all'[i] == if group == Some(i) then all[i].(children := all[i].children + [child]) else all[i]
  {
    if group.None? || group.value >= |all| then all
    else all[group.value := all[group.value].(children := all[group.value].children + [child])]
  }

  lemma CallStaysOk(c: ApiTraceCall, cs: Trace, start: nat, n: nat, i: nat)
    requires i < n < |cs| && CallOk(c, cs, start, n, i)
    ensures CallOk(if Parent(cs, n) == Some(i) then c.(children := c.children + [n]) else c, cs, start, n + 1, i)
  {
    KeepsChildren(cs, n, i);
  }

  lemma AddOk(all: seq<ApiTraceCall>, cs: Trace, start: nat, group: Option<nat>, call: ApiTraceCall)
    requires CallsOk(all, cs, start) && |all| < |cs| && group == Parent(cs, |all|)
    requires call == ApiTraceCall(start + |all|, cs[|all|], group, [])
    ensures CallsOk(WithChild(all, group, |all|) + [call], cs, start)
  {
    var n, changed := |all|, WithChild(all, group, |all|);
    KeepsChildren(cs, n, n);
    forall i | 0 <= i < n ensures CallOk(changed[i], cs, start, n + 1, i) {
      CallStaysOk(all[i], cs, start, n, i);
    }
  }

  class FrameContents {
    var m_groups: seq<nat>
    var m_topLevelItems: seq<nat>
    var m_allCalls: seq<ApiTraceCall>

    constructor ()
      ensures m_groups == [] && m_topLevelItems == [] && m_allCalls == []
    {
      m_groups, m_topLevelItems, m_allCalls := [], [], [];
    }

    /** The calls loaded so far are the first of cs, and every list agrees with their forest. */
    ghost predicate Agrees(cs: Trace, start: nat)
      reads this
    {
      && CallsOk(m_allCalls, cs, start)
      && m_groups == Groups(cs, |m_allCalls|)
      && m_topLevelItems == Children(cs, |m_allCalls|, None)
    }

    /** The loop body: one parsed call becomes an object under the innermost open group. */
    method AddCall(ghost cs: Trace, ghost start: nat, call: TraceCall, no: nat)
      requires Agrees(cs, start) && |m_allCalls| < |cs|
      requires call == cs[|m_allCalls|] && no == start + |m_allCalls|
      modifies this
      ensures Agrees(cs, start) && |m_allCalls| == old(|m_allCalls|) + 1
    {
      var n := |m_allCalls|;
      ghost var all := m_allCalls;
      var parent: Option<nat> := if m_groups == [] then None else Some(m_groups[|m_groups| - 1]);
      var apiCall := ApiTraceCall(no, call, parent, []);
      AddOk(all, cs, start, parent, apiCall);
      if |m_groups| == 0 {
        m_topLevelItems := m_topLevelItems + [n];
      } else {
        var top := m_groups[|m_groups| - 1];
        GroupsAscend(cs, n, |m_groups| - 1, |m_groups| - 1);
        m_allCalls := m_allCalls[top := m_allCalls[top].(children := m_allCalls[top].children + [n])];
      }
      m_allCalls := m_allCalls + [apiCall];
      assert m_allCalls == WithChild(all, parent, n) + [apiCall];
      if call.push {
        m_groups := m_groups + [n];
      } else if call.pop {
        if |m_groups| != 0 {
          m_groups := m_groups[..|m_groups| - 1];
        }
      }
    }

    /** Parses from the bookmark until an END_FRAME call or the end of the trace.  That is exactly
        the counted calls of the frame, and what is built is their forest. */
    method Load(trace: Trace, start: nat, numOfCalls: nat) returns (endFrameReached: bool)
      requires IsFrame(trace, start, numOfCalls)
      requires m_groups == [] && m_topLevelItems == [] && m_allCalls == []
      modifies this
      ensures |m_allCalls| == numOfCalls
      ensures Agrees(trace[start..start + numOfCalls], start)
      ensures endFrameReached <==> trace[start + numOfCalls - 1].endFrame
    {
      ghost var cs := trace[start..start + numOfCalls];
      endFrameReached := false;
      var cursor := start;
      while cursor < |trace|
        invariant cursor == start + |m_allCalls| <= start + numOfCalls
        invariant Agrees(cs, start)
        invariant !endFrameReached
        invariant forall i :: start <= i < cursor ==> !trace[i].endFrame
        decreases |trace| - cursor
      {
        var call, no := trace[cursor], cursor;
        cursor := cursor + 1;
        AddCall(cs, start, call, no);
        if call.endFrame {
          endFrameReached := true;
          break;
        }
      }
    }

    /** The list handed over as the frame's top-level calls is the top-level list, also when it is
        replaced by the list of all calls because their counts are equal. */
    method TopLevelToSend(ghost cs: Trace, ghost start: nat) returns (items: seq<nat>)
      requires Agrees(cs, start) && |m_allCalls| == |cs|
      ensures items == m_topLevelItems
    {
      if |m_topLevelItems| == |m_allCalls| {
        AllTopLevel(cs, |cs|);
        RangeAt(|cs|);
        items := seq(|m_allCalls|, i => i);
      } else {
        items := m_topLevelItems;
      }
    }
  }
}
