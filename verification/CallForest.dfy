/** The forest that PUSH and POP markers build over the calls of a frame, on positions in the
    frame (what TraceLoader::FrameContents::load leaves behind). */
module CallForest {
  import opened Options
  import opened TraceScan

  /** The open groups after the first n calls, outermost first.  A POP without an open group
      changes nothing. */
  function Groups(cs: Trace, n: nat): seq<nat>
    requires n <= |cs|
    decreases n
  {
    if n == 0 then []
    else
      var s := Groups(cs, n - 1);
      if cs[n - 1].push then s + [n - 1]
      else if cs[n - 1].pop && s != [] then s[..|s| - 1]
      else s
  }

  /** The group that encloses position k of a list of groups, if any. */
  function Above(s: seq<nat>, k: nat): Option<nat>
    requires k <= |s|
  {
    if k == 0 then None else Some(s[k - 1])
  }

  /** The group that call i is recorded in: the innermost one open before it. */
  function Parent(cs: Trace, i: nat): Option<nat>
    requires i < |cs|
  {
    Above(Groups(cs, i), |Groups(cs, i)|)
  }

  /** Those of the first n calls that are recorded in group p, or at top level. */
  function Children(cs: Trace, n: nat, p: Option<nat>): (s: seq<nat>)
    requires n <= |cs|
    decreases n
  {
    if n == 0 then []
    else Children(cs, n - 1, p) + (if Parent(cs, n - 1) == p then [n - 1] else [])
  }

  function Bound(p: Option<nat>): int { if p.None? then -1 else p.value }

  lemma {:induction false} GroupsAscend(cs: Trace, n: nat, j: nat, k: nat)
    requires n <= |cs| && j <= k < |Groups(cs, n)|
    ensures j < k ==> Groups(cs, n)[j] < Groups(cs, n)[k]
    ensures Groups(cs, n)[k] < n
    decreases n
  {
    var s := Groups(cs, n - 1);
    if k < |s| {
      GroupsAscend(cs, n - 1, j, k);
    } else if j < |s| {
      GroupsAscend(cs, n - 1, j, j);
    }
  }

  lemma {:induction false} ChildRange(cs: Trace, n: nat, p: Option<nat>, k: nat)
    requires n <= |cs| && k < |Children(cs, n, p)|
    ensures Bound(p) < Children(cs, n, p)[k] < n
    ensures Parent(cs, Children(cs, n, p)[k]) == p
    decreases n
  {
    var s := Children(cs, n - 1, p);
    if k < |s| {
      ChildRange(cs, n - 1, p, k);
    } else if p.Some? {
      var g := Groups(cs, n - 1);
      GroupsAscend(cs, n - 1, |g| - 1, |g| - 1);
    }
  }

  lemma {:induction false} ChildrenAscend(cs: Trace, n: nat, p: Option<nat>, j: nat, k: nat)
    requires n <= |cs| && j < k < |Children(cs, n, p)|
    ensures Children(cs, n, p)[j] < Children(cs, n, p)[k]
    decreases n
  {
    var s := Children(cs, n - 1, p);
    if k < |s| {
      ChildrenAscend(cs, n - 1, p, j, k);
    } else {
      ChildRange(cs, n - 1, p, j);
    }
  }

  /** The first k trees below p (or at top level), in preorder, among the first n calls. */
  function Trees(cs: Trace, n: nat, p: Option<nat>, k: nat): seq<nat>
    requires n <= |cs| && Bound(p) < n && k <= |Children(cs, n, p)|
    decreases n - Bound(p), k
  {
    if k == 0 then []
    else
      ChildRange(cs, n, p, k - 1);
      var c := Children(cs, n, p)[k - 1];
      Trees(cs, n, p, k - 1) + ([c] + Below(cs, n, Some(c)))
  }

  /** All trees below p, in preorder. */
  function Below(cs: Trace, n: nat, p: Option<nat>): seq<nat>
    requires n <= |cs| && Bound(p) < n
    decreases n - Bound(p), n + 1
  {
    ChildCount(cs, n, p);
    Trees(cs, n, p, |Children(cs, n, p)|)
  }

  lemma {:induction false} ChildCount(cs: Trace, n: nat, p: Option<nat>)
    requires n <= |cs|
    ensures |Children(cs, n, p)| <= n
    decreases n
  {
    if n > 0 {
      ChildCount(cs, n - 1, p);
    }
  }

  function Range(n: nat): seq<nat>
    decreases n
  {
    if n == 0 then [] else Range(n - 1) + [n - 1]
  }

  lemma {:induction false} RangeAt(n: nat)
    ensures |Range(n)| == n && forall k :: 0 <= k < n ==> Range(n)[k] == k
    decreases n
  {
    if n > 0 {
      RangeAt(n - 1);
    }
  }

  /** The open groups are the upper end of the forest's rightmost path: each one is the last
      child so far of the one above it, and the outermost one is the last top-level call. */
  lemma {:induction false} GroupsAreRightmost(cs: Trace, n: nat, k: nat)
    requires n <= |cs| && k < |Groups(cs, n)|
    ensures var s := Groups(cs, n);
      var siblings := Children(cs, n, Above(s, k));
      siblings != [] && siblings[|siblings| - 1] == s[k]
    decreases n
  {
    var s, s' := Groups(cs, n - 1), Groups(cs, n);
    if k < |s| {
      assert s'[k] == s[k] && Above(s', k) == Above(s, k);
      GroupsAreRightmost(cs, n - 1, k);
      if k > 0 {
        GroupsAscend(cs, n - 1, k - 1, |s| - 1);
      }
      assert Parent(cs, n - 1) != Above(s, k);
    } else {
      assert s' == s + [n - 1] && Above(s', k) == Parent(cs, n - 1);
    }
  }

  /** Of the children at position j of the rightmost path, only the last one can be open. */
  lemma OthersFinished(cs: Trace, n: nat, j: nat, k: nat)
    requires n <= |cs| && j <= |Groups(cs, n)|
    requires k < |Children(cs, n, Above(Groups(cs, n), j))|
    requires j < |Groups(cs, n)| ==> k < |Children(cs, n, Above(Groups(cs, n), j))| - 1
    ensures Children(cs, n, Above(Groups(cs, n), j))[k] !in Groups(cs, n)
  {
    var s := Groups(cs, n);
    var kids := Children(cs, n, Above(s, j));
    if q :| 0 <= q < |s| && s[q] == kids[k] {
      ChildRange(cs, n, Above(s, j), k);
      GroupsAreRightmost(cs, n, q);
      OpenParent(cs, n, q);
      AboveInjective(cs, n, q, j);
      GroupsAreRightmost(cs, n, j);
      ChildrenAscend(cs, n, Above(s, j), k, |kids| - 1);
    }
  }

  lemma OpenParent(cs: Trace, n: nat, q: nat)
    requires n <= |cs| && q < |Groups(cs, n)|
    ensures Groups(cs, n)[q] < |cs| && Parent(cs, Groups(cs, n)[q]) == Above(Groups(cs, n), q)
  {
    var s := Groups(cs, n);
    GroupsAreRightmost(cs, n, q);
    ChildRange(cs, n, Above(s, q), |Children(cs, n, Above(s, q))| - 1);
  }

  lemma AboveInjective(cs: Trace, n: nat, j: nat, k: nat)
    requires n <= |cs| && j <= |Groups(cs, n)| && k <= |Groups(cs, n)|
    requires Above(Groups(cs, n), j) == Above(Groups(cs, n), k)
    ensures j == k
  {
    if 0 < j < k {
      GroupsAscend(cs, n, j - 1, k - 1);
    } else if 0 < k < j {
      GroupsAscend(cs, n, k - 1, j - 1);
    }
  }

  /** Trees none of whose roots is an open group are finished: the next call does not touch them. */
  lemma {:induction false} Finished(cs: Trace, n: nat, p: Option<nat>, k: nat)
    requires Bound(p) < n < |cs| && k <= |Children(cs, n, p)|
    requires forall i :: 0 <= i < k ==> Children(cs, n, p)[i] !in Groups(cs, n)
    ensures k <= |Children(cs, n + 1, p)| && Trees(cs, n + 1, p, k) == Trees(cs, n, p, k)
    decreases n - Bound(p), k
  {
    if k > 0 {
      Finished(cs, n, p, k - 1);
      ChildRange(cs, n, p, k - 1);
      var c := Children(cs, n, p)[k - 1];
      FinishedBelow(cs, n, c);
    }
  }

  lemma {:induction false} FinishedBelow(cs: Trace, n: nat, c: nat)
    requires c < n < |cs| && c !in Groups(cs, n)
    ensures Below(cs, n + 1, Some(c)) == Below(cs, n, Some(c))
    decreases n - c, n + 1
  {
    var s, kids := Groups(cs, n), Children(cs, n, Some(c));
    forall i | 0 <= i < |kids| ensures kids[i] !in s {
      ChildRange(cs, n, Some(c), i);
      if q :| 0 <= q < |s| && s[q] == kids[i] {
        OpenParent(cs, n, q);
      }
    }
    ChildCount(cs, n, Some(c));
    Finished(cs, n, Some(c), |kids|);
  }

  /** Position j of the rightmost path: adding call n appends n to the preorder below it. */
  lemma {:induction false} AppendBelow(cs: Trace, n: nat, j: nat)
    requires 0 < n < |cs| && j <= |Groups(cs, n)|
    ensures Bound(Above(Groups(cs, n), j)) < n
    ensures Below(cs, n + 1, Above(Groups(cs, n), j)) == Below(cs, n, Above(Groups(cs, n), j)) + [n]
    decreases |Groups(cs, n)| - j
  {
    var s := Groups(cs, n);
    if j > 0 {
      GroupsAscend(cs, n, j - 1, j - 1);
    }
    if j == |s| {
      AppendAtTop(cs, n);
    } else {
      AppendBelow(cs, n, j + 1);
      AppendAlongPath(cs, n, j);
    }
  }

  lemma AppendAtTop(cs: Trace, n: nat)
    requires 0 < n < |cs| && Bound(Parent(cs, n)) < n
    ensures Below(cs, n + 1, Parent(cs, n)) == Below(cs, n, Parent(cs, n)) + [n]
  {
    var p := Parent(cs, n);
    var kids := Children(cs, n, p);
    forall i | 0 <= i < |kids| ensures kids[i] !in Groups(cs, n) {
      OthersFinished(cs, n, |Groups(cs, n)|, i);
    }
    Finished(cs, n, p, |kids|);
    AddLeaf(cs, n, p);
  }

  lemma AddLeaf(cs: Trace, n: nat, p: Option<nat>)
    requires 0 < n < |cs| && Bound(p) < n && Parent(cs, n) == p
    ensures Below(cs, n + 1, p) == Trees(cs, n + 1, p, |Children(cs, n, p)|) + [n]
  {
    var kids := Children(cs, n + 1, p);
    assert kids == Children(cs, n, p) + [n];
    Leaf(cs, n);
    assert [n] + Below(cs, n + 1, Some(n)) == [n];
  }

  lemma Leaf(cs: Trace, n: nat)
    requires n < |cs|
    ensures Below(cs, n + 1, Some(n)) == []
  {
    var kids := Children(cs, n + 1, Some(n));
    if |kids| > 0 {
      ChildRange(cs, n + 1, Some(n), 0);
    }
  }

  lemma AppendAlongPath(cs: Trace, n: nat, j: nat)
    requires 0 < n < |cs| && j < |Groups(cs, n)|
    requires Bound(Above(Groups(cs, n), j)) < n && Groups(cs, n)[j] < n
    requires Below(cs, n + 1, Some(Groups(cs, n)[j])) == Below(cs, n, Some(Groups(cs, n)[j])) + [n]
    ensures Below(cs, n + 1, Above(Groups(cs, n), j)) == Below(cs, n, Above(Groups(cs, n), j)) + [n]
  {
    var s := Groups(cs, n);
    var p, r := Above(s, j), s[j];
    var kids := Children(cs, n, p);
    if Above(s, |s|) == p {
      AboveInjective(cs, n, j, |s|);
    }
    assert Children(cs, n + 1, p) == kids;
    GroupsAreRightmost(cs, n, j);
    var k := |kids| - 1;
    forall i | 0 <= i < k ensures kids[i] !in s {
      OthersFinished(cs, n, j, i);
    }
    Finished(cs, n, p, k);
    BelowLast(cs, n, p);
    BelowLast(cs, n + 1, p);
    hide Groups, Children, Trees, Below;
    Regroup(Trees(cs, n, p, k), [r], Below(cs, n, Some(r)), [n]);
  }

  /** The last tree of a forest. */
  lemma BelowLast(cs: Trace, n: nat, p: Option<nat>)
    requires n <= |cs| && Children(cs, n, p) != [] && Bound(p) < n
    ensures var kids := Children(cs, n, p);
      var c := kids[|kids| - 1];
      c < n && Below(cs, n, p) == Trees(cs, n, p, |kids| - 1) + ([c] + Below(cs, n, Some(c)))
  {
    ChildRange(cs, n, p, |Children(cs, n, p)| - 1);
  }

  lemma Regroup(a: seq<nat>, b: seq<nat>, c: seq<nat>, d: seq<nat>)
    ensures a + (b + (c + d)) == a + (b + c) + d
  {
  }

  /** Whatever the markers, the forest in preorder is the list of all calls. */
  lemma {:induction false} ForestIsAllCalls(cs: Trace, n: nat)
    requires n <= |cs|
    ensures n > 0 ==> Below(cs, n, None) == Range(n)
    decreases n
  {
    if n == 1 {
      FirstCall(cs);
    } else if n > 1 {
      ForestIsAllCalls(cs, n - 1);
      AppendBelow(cs, n - 1, 0);
    }
  }

  lemma FirstCall(cs: Trace)
    requires cs != []
    ensures Below(cs, 1, None) == Range(1)
  {
    hide Groups, Children, Trees, Below, Range;
    NothingYet(cs);
    OneMore(cs, 0, None);
    BelowLast(cs, 1, None);
    Leaf(cs, 0);
  }

  lemma NothingYet(cs: Trace)
    requires cs != []
    ensures Groups(cs, 0) == [] && Children(cs, 0, None) == [] && Range(0) == []
    ensures Parent(cs, 0) == None && Trees(cs, 1, None, 0) == []
  {
  }

  /** One step of building the lists. */
  lemma OneMore(cs: Trace, n: nat, p: Option<nat>)
    requires n < |cs|
    ensures Children(cs, n + 1, p) == if Parent(cs, n) == p then Children(cs, n, p) + [n] else Children(cs, n, p)
    ensures Range(n + 1) == Range(n) + [n]
  {
  }

  /** As many top-level calls as calls: then the top-level list is the list of all calls. */
  lemma {:induction false} AllTopLevel(cs: Trace, n: nat)
    requires n <= |cs| && |Children(cs, n, None)| == n
    ensures Children(cs, n, None) == Range(n)
    decreases n
  {
    if n > 0 {
      ChildCount(cs, n - 1, None);
      AllTopLevel(cs, n - 1);
    }
  }
}
