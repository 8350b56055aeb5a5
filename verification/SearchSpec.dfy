/** What a search means: `hits` are the numbers of the calls whose text contains the searched
    text.  Plain scans of the numbers, forwards and backwards. */
module SearchSpec {
  import opened Options

  /** The least hit in [from, to). */
  function FirstHit(hits: set<nat>, from: nat, to: nat): (r: Option<nat>)
    ensures r.Some? ==> from <= r.value < to
    decreases (to as int) - from
  {
    if from >= to then None
    else if from in hits then Some(from)
    else FirstHit(hits, from + 1, to)
  }

  /** The greatest hit below `to`. */
  function LastHit(hits: set<nat>, to: nat): (r: Option<nat>)
    ensures r.Some? ==> r.value < to
  {
    if to == 0 then None
    else if to - 1 in hits then Some(to - 1)
    else LastHit(hits, to - 1)
  }

  /** FirstHit is the least hit from `from` on, or none exactly if there is none. */
  lemma {:induction false} FirstHitIff(hits: set<nat>, from: nat, to: nat, r: Option<nat>)
    ensures FirstHit(hits, from, to) == r <==>
      match r
      case Some(i) => from <= i < to && i in hits && forall j :: from <= j < i ==> j !in hits
      case None => forall j :: from <= j < to ==> j !in hits
    decreases (to as int) - from
  {
    if from < to && from !in hits {
      FirstHitIff(hits, from + 1, to, r);
    }
  }

  /** LastHit is the greatest hit below `to`, or none exactly if there is none. */
  lemma {:induction false} LastHitIff(hits: set<nat>, to: nat, r: Option<nat>)
    ensures LastHit(hits, to) == r <==>
      match r
      case Some(i) => i < to && i in hits && forall j :: i < j < to ==> j !in hits
      case None => forall j :: 0 <= j < to ==> j !in hits
  {
    if to > 0 && to - 1 !in hits {
      LastHitIff(hits, to - 1, r);
    }
  }

  /** A forward scan may be cut in two. */
  lemma {:induction false} FirstHitSplit(hits: set<nat>, from: nat, middle: nat, to: nat)
    requires from <= middle <= to
    ensures FirstHit(hits, from, to) ==
      if FirstHit(hits, from, middle).Some? then FirstHit(hits, from, middle) else FirstHit(hits, middle, to)
    decreases middle - from
  {
    if from < middle && from !in hits {
      FirstHitSplit(hits, from + 1, middle, to);
    }
  }
}
