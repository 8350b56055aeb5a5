/** Who the parent of a call is, by counting PUSH and POP markers. */
module GroupMarkers {
  import opened Options
  import opened TraceScan
  import opened CallForest

  /** A PUSH counts one up; a POP that is no PUSH counts one down. */
  function Mark(c: TraceCall): int {
    if c.push then 1 else if c.pop then -1 else 0
  }

  /** The count over the calls behind p and before m. */
  function Since(cs: Trace, p: nat, m: nat): int
    requires p < m <= |cs|
    decreases m
  {
    if m == p + 1 then 0 else Since(cs, p, m - 1) + Mark(cs[m - 1])
  }

  /** The group that call p opens is still open before call n: no more groups were closed than opened
      since at any time. */
  predicate IsOpen(cs: Trace, p: nat, n: nat)
    requires n <= |cs|
  {
    p < n && cs[p].push && forall m :: p < m <= n ==> Since(cs, p, m) >= 0
  }

  /** At some time more groups were closed than opened since call p. */
  predicate IsClosed(cs: Trace, p: nat, n: nat)
    requires p < n <= |cs|
  {
    exists m :: p < m <= n && Since(cs, p, m) < 0
  }

  lemma ClosedOrOpen(cs: Trace, p: nat, n: nat)
    requires p < n <= |cs| && cs[p].push
    ensures IsClosed(cs, p, n) <==> !IsOpen(cs, p, n)
  {
  }

  /** How many groups stand above position k of the stack is the count since that group was opened. */
  lemma {:induction false} CountIsDepth(cs: Trace, n: nat, k: nat)
    requires n <= |cs| && k < |Groups(cs, n)|
    ensures Groups(cs, n)[k] < n
    ensures Since(cs, Groups(cs, n)[k], n) == |Groups(cs, n)| - 1 - k
    decreases n
  {
    if k < |Groups(cs, n - 1)| {
      CountIsDepth(cs, n - 1, k);
    }
  }

  lemma OpenNext(cs: Trace, p: nat, n: nat)
    requires p < n < |cs|
    ensures IsOpen(cs, p, n + 1) <==> IsOpen(cs, p, n) && Since(cs, p, n + 1) >= 0
  {
    var next := n + 1;
    if IsOpen(cs, p, n) && Since(cs, p, next) >= 0 {
      assert forall m :: p < m <= next && m != next ==> Since(cs, p, m) >= 0;
    }
  }

  lemma OpenFirst(cs: Trace, n: nat)
    requires n < |cs|
    ensures IsOpen(cs, n, n + 1) <==> cs[n].push
  {
    assert Since(cs, n, n + 1) == 0;
  }

  /** The stack of groups holds exactly those that are open. */
  lemma {:induction false} GroupsAreOpen(cs: Trace, n: nat, p: nat)
    requires n <= |cs|
    ensures p in Groups(cs, n) <==> IsOpen(cs, p, n)
    decreases n
  {
    if n > 0 {
      var s, s' := Groups(cs, n - 1), Groups(cs, n);
      GroupsAreOpen(cs, n - 1, p);
      if p == n - 1 {
        OpenFirst(cs, n - 1);
        NotYet(cs, n - 1, n - 1);
      } else if p < n - 1 {
        OpenNext(cs, p, n - 1);
        if p in s {
          var k :| 0 <= k < |s| && s[k] == p;
          CountIsDepth(cs, n - 1, k);
          StaysUnlessTop(cs, n - 1, k);
        } else {
          assert p !in s';
        }
      } else {
        NotYet(cs, n, p);
      }
    }
  }

  lemma NotYet(cs: Trace, n: nat, p: nat)
    requires n <= |cs| && p >= n
    ensures p !in Groups(cs, n)
  {
    forall k | 0 <= k < |Groups(cs, n)| ensures Groups(cs, n)[k] != p {
      GroupsAscend(cs, n, k, k);
    }
  }

  /** A group leaves the stack only if it is on top and call n is a POP that is no PUSH. */
  lemma StaysUnlessTop(cs: Trace, n: nat, k: nat)
    requires n < |cs| && k < |Groups(cs, n)|
    ensures Groups(cs, n)[k] in Groups(cs, n + 1) <==> k < |Groups(cs, n)| - 1 || Mark(cs[n]) >= 0
  {
    var s, s' := Groups(cs, n), Groups(cs, n + 1);
    if k < |s'| {
      assert s'[k] == s[k];
    } else {
      forall j | 0 <= j < |s'| ensures s'[j] != s[k] {
        GroupsAscend(cs, n, j, k);
      }
    }
  }

  /** Call i belongs to group p if and only if p is a PUSH before it whose group is still open, and the
      group of every PUSH between them has been closed. */
  lemma ParentIff(cs: Trace, i: nat, p: nat)
    requires i < |cs|
    ensures Parent(cs, i) == Some(p) <==>
      IsOpen(cs, p, i) && forall q :: p < q < i && cs[q].push ==> IsClosed(cs, q, i)
  {
    InStack(cs, i);
    var s := Groups(cs, i);
    if s != [] {
      var top := s[|s| - 1];
      forall q: nat | IsOpen(cs, q, i) ensures q <= top {
        var k :| 0 <= k < |s| && s[k] == q;
        GroupsAscend(cs, i, k, |s| - 1);
      }
      assert top in s;
    }
    hide Groups;
    forall q: nat | q < i && cs[q].push ensures IsClosed(cs, q, i) <==> !IsOpen(cs, q, i) {
      ClosedOrOpen(cs, q, i);
    }
  }

  /** It is a top-level call if and only if the groups of all PUSHes before it have been closed. */
  lemma NoParentIff(cs: Trace, i: nat)
    requires i < |cs|
    ensures Parent(cs, i) == None <==> forall p :: 0 <= p < i && cs[p].push ==> IsClosed(cs, p, i)
  {
    InStack(cs, i);
    var s := Groups(cs, i);
    if s != [] {
      assert s[|s| - 1] in s;
    }
    hide Groups;
    forall q: nat | q < i && cs[q].push ensures IsClosed(cs, q, i) <==> !IsOpen(cs, q, i) {
      ClosedOrOpen(cs, q, i);
    }
  }

  lemma InStack(cs: Trace, i: nat)
    requires i <= |cs|
    ensures forall p: nat :: p in Groups(cs, i) <==> IsOpen(cs, p, i)
  {
    forall p: nat ensures p in Groups(cs, i) <==> IsOpen(cs, p, i) {
      GroupsAreOpen(cs, i, p);
    }
  }

  /** A group's children, and the top-level calls, are exactly the calls with that parent. */
  lemma {:induction false} ChildrenIff(cs: Trace, n: nat, p: Option<nat>, i: nat)
    requires n <= |cs|
    ensures i in Children(cs, n, p) <==> i < n && Parent(cs, i) == p
    decreases n
  {
    if n > 0 {
      ChildrenIff(cs, n - 1, p, i);
      hide Parent;
    }
  }
}
