/** Brace matching in the shader editor (gui/glsledit.cpp): finding the brace that belongs to another
    one, over the lists of brace positions that the highlighter keeps with every line. */
module Brackets {

  import opened Options

  /** A line of the document: where it starts, and the places in it of the braces the highlighter saw;
      None for a line to which the highlighter has attached nothing. */
  datatype Block = Block(position: nat, data: Option<seq<nat>>)

  datatype Document = Document(text: string, blocks: seq<Block>)

  function Braces(b: Block): seq<nat> {
    if b.data.Some? then b.data.value else []
  }

  /** Where block b ends: one past its line terminator. */
  function End(doc: Document, b: nat): nat {
    if b + 1 < |doc.blocks| then doc.blocks[b + 1].position else |doc.text| + 1
  }

  predicate Ascending(s: seq<nat>) {
    forall i, j :: 0 <= i < j < |s| ==> s[i] < s[j]
  }

  /** The lines cover the text in order; every line's list is ascending and holds only places of
      braces in that line. */
  ghost predicate Sound(doc: Document) {
    && |doc.blocks| > 0 && doc.blocks[0].position == 0
    && (forall a, b :: 0 <= a < b < |doc.blocks| ==> doc.blocks[a].position < doc.blocks[b].position)
    && (forall b :: 0 <= b < |doc.blocks| ==> LineSound(doc, b))
  }

  ghost predicate LineSound(doc: Document, b: nat)
    requires b < |doc.blocks|
  {
    var block := doc.blocks[b];
    && block.position < End(doc, b) <= |doc.text| + 1
    && Ascending(Braces(block))
    && (forall c :: c in Braces(block) ==>
          block.position + c + 1 < End(doc, b) && doc.text[block.position + c] in {'{', '}'})
  }

  // ----- matching braces, defined on the text alone -----

  ghost predicate Marks(b: Block, p: nat) {
    p >= b.position && p - b.position in Braces(b)
  }

  /** Position p is in the list of some line. */
  ghost predicate Marked(doc: Document, p: nat) {
    exists b :: 0 <= b < |doc.blocks| && Marks(doc.blocks[b], p)
  }

  ghost function WeightAt(doc: Document, p: nat): int
    requires p < |doc.text|
  {
    if !Marked(doc, p) then 0 else if doc.text[p] == '{' then 1 else -1
  }

  /** What each position of the text adds to the nesting. */
  ghost function Weights(doc: Document): (w: seq<int>)
    ensures |w| == |doc.text|
    ensures forall p :: 0 <= p < |w| ==> w[p] == WeightAt(doc, p)
  {
    seq(|doc.text|, p requires 0 <= p < |doc.text| => WeightAt(doc, p))
  }

  ghost predicate IsWeights(w: seq<int>) {
    forall p :: 0 <= p < |w| ==> -1 <= w[p] <= 1
  }

  /** The nesting gained from position i up to, not including, position j. */
  ghost function Balance(w: seq<int>, i: nat, j: nat): int
    requires i <= j <= |w|
    decreases j
  {
    if i == j then 0 else Balance(w, i, j - 1) + w[j - 1]
  }

  lemma {:induction false} BalanceSplit(w: seq<int>, i: nat, m: nat, j: nat)
    requires i <= m <= j <= |w|
    ensures Balance(w, i, j) == Balance(w, i, m) + Balance(w, m, j)
    decreases j
  {
    if m < j {
      BalanceSplit(w, i, m, j - 1);
    }
  }

  /** Entries i and j are an opening and a closing brace, what lies between is balanced, and no part
      of it that starts at i closes more than it opens. */
  ghost predicate Matching(w: seq<int>, i: nat, j: nat) {
    && i < j < |w| && w[i] == 1 && w[j] == -1
    && Balance(w, i + 1, j) == 0
    && (forall m :: i < m <= j ==> Balance(w, i, m) >= 1)
  }

  // ----- the two searches as functions -----

  /** The first position from k on where the depth reaches zero; |w| if there is none. */
  ghost function CloseAt(w: seq<int>, k: nat, depth: int): (j: nat)
    ensures j <= |w|
    ensures j == |w| || k <= j
    decreases |w| - k
  {
    if k >= |w| then |w|
    else if depth + w[k] == 0 then k
    else CloseAt(w, k + 1, depth + w[k])
  }

  /** Going down from position k - 1, the first one where the depth reaches zero; -1 if there is none. */
  ghost function OpenAt(w: seq<int>, k: int, depth: int): (i: int)
    requires k <= |w|
    ensures -1 <= i < |w|
    ensures i == -1 || i < k
    decreases k
  {
    if k <= 0 then -1
    else if depth - w[k - 1] == 0 then k - 1
    else OpenAt(w, k - 1, depth - w[k - 1])
  }

  /** Read forwards from k, the depth stays positive up to j and is zero just behind it. */
  ghost predicate ClosesAt(w: seq<int>, k: nat, depth: int, j: nat)
    requires k <= j < |w|
  {
    depth + Balance(w, k, j + 1) == 0 && forall m :: k <= m <= j ==> depth + Balance(w, k, m) >= 1
  }

  /** Read backwards from k - 1, the depth stays positive down to i + 1 and is zero at i. */
  ghost predicate OpensAt(w: seq<int>, k: nat, depth: int, i: nat)
    requires i < k <= |w|
  {
    depth == Balance(w, i, k) && forall m :: i < m <= k ==> depth - Balance(w, m, k) >= 1
  }

  lemma ClosesAtStep(w: seq<int>, k: nat, depth: int, j: nat)
    requires k < j < |w|
    ensures ClosesAt(w, k, depth, j) <==> depth >= 1 && ClosesAt(w, k + 1, depth + w[k], j)
  {
    var d, next := depth + w[k], k + 1;
    assert Balance(w, k, k) == 0;
    assert Balance(w, k, next) == w[k];
    forall m | next <= m <= j + 1 ensures depth + Balance(w, k, m) == d + Balance(w, next, m) {
      BalanceSplit(w, k, next, m);
    }
    assert forall m :: next <= m <= j ==> depth + Balance(w, k, m) == d + Balance(w, next, m);
    if ClosesAt(w, k, depth, j) {
      forall m | next <= m <= j ensures d + Balance(w, next, m) >= 1 {
        assert depth + Balance(w, k, m) >= 1;
      }
    }
  }

  lemma OpensAtStep(w: seq<int>, k: nat, depth: int, i: nat)
    requires i < k - 1 && k <= |w|
    ensures OpensAt(w, k, depth, i) <==> depth >= 1 && OpensAt(w, k - 1, depth - w[k - 1], i)
  {
    var d, last := depth - w[k - 1], k - 1;
    assert Balance(w, k, k) == 0;
    assert forall m :: i <= m <= last ==> Balance(w, m, k) == Balance(w, m, last) + w[last];
    if OpensAt(w, k, depth, i) {
      forall m | i < m <= last ensures d - Balance(w, m, last) >= 1 {
        assert depth - Balance(w, m, k) >= 1;
      }
    }
  }

  /** CloseAt returns j exactly if the depth is positive up to j and zero behind it. */
  lemma {:induction false} CloseAtIff(w: seq<int>, k: nat, depth: nat, j: nat)
    requires IsWeights(w) && k <= j < |w| && depth >= 1
    ensures CloseAt(w, k, depth) == j <==> ClosesAt(w, k, depth, j)
    decreases |w| - k
  {
    assert Balance(w, k, k) == 0;
    if k < j {
      ClosesAtStep(w, k, depth, j);
      if depth + w[k] >= 1 {
        CloseAtIff(w, k + 1, depth + w[k], j);
      } else {
        assert depth + w[k] == 0;
        assert Balance(w, k + 1, k + 1) == 0;
      }
    }
  }

  lemma {:induction false} OpenAtIff(w: seq<int>, k: nat, depth: nat, i: nat)
    requires IsWeights(w) && i < k <= |w| && depth >= 1
    ensures OpenAt(w, k, depth) == i <==> OpensAt(w, k, depth, i)
    decreases k
  {
    assert Balance(w, k, k) == 0;
    var last := k - 1;
    if i < last {
      OpensAtStep(w, k, depth, i);
      if depth - w[last] >= 1 {
        OpenAtIff(w, last, depth - w[last], i);
      } else {
        assert depth - w[last] == 0;
        assert Balance(w, last, last) == 0;
      }
    } else {
      assert Balance(w, i, last) == 0;
    }
  }

  /** Searching forwards behind an opening brace finds exactly the matching closing brace. */
  lemma ClosesIffMatching(w: seq<int>, i: nat, j: nat)
    requires IsWeights(w) && i < j < |w| && w[i] == 1
    ensures CloseAt(w, i + 1, 1) == j <==> Matching(w, i, j)
  {
    var next := i + 1;
    CloseAtIff(w, next, 1, j);
    assert Balance(w, i, i) == 0;
    assert Balance(w, i, next) == 1;
    forall m | next <= m <= j ensures Balance(w, i, m) == 1 + Balance(w, next, m) {
      BalanceSplit(w, i, next, m);
    }
    assert forall m :: next <= m <= j ==> Balance(w, i, m) == 1 + Balance(w, next, m);
    assert Balance(w, next, j + 1) == Balance(w, next, j) + w[j];
    if ClosesAt(w, next, 1, j) {
      assert 1 + Balance(w, next, j) >= 1;
    }
    if Matching(w, i, j) {
      forall m | next <= m <= j ensures 1 + Balance(w, next, m) >= 1 {
        assert Balance(w, i, m) >= 1;
      }
    }
  }

  /** Searching backwards before a closing brace finds exactly the matching opening brace. */
  lemma OpensIffMatching(w: seq<int>, i: nat, j: nat)
    requires IsWeights(w) && i < j < |w| && w[j] == -1
    ensures OpenAt(w, j, 1) == i <==> Matching(w, i, j)
  {
    OpenAtIff(w, j, 1, i);
    var next := i + 1;
    assert Balance(w, i, i) == 0;
    assert Balance(w, i, next) == w[i];
    BalanceSplit(w, i, next, j);
    forall m | i < m <= j ensures Balance(w, i, j) == Balance(w, i, m) + Balance(w, m, j) {
      BalanceSplit(w, i, m, j);
    }
    assert forall m :: i < m <= j ==> Balance(w, i, j) == Balance(w, i, m) + Balance(w, m, j);
  }

  // ----- the two searches in the document -----

  /** The last of the first n lines that starts at or before p. */
  function BlockFrom(doc: Document, p: nat, n: nat): (b: nat)
    requires 0 < n <= |doc.blocks| && doc.blocks[0].position == 0
    ensures b < n && doc.blocks[b].position <= p
    ensures b + 1 < n ==> p < doc.blocks[b + 1].position
  {
    if n == 1 || doc.blocks[n - 1].position <= p then n - 1 else BlockFrom(doc, p, n - 1)
  }

  /** The line that holds position p. */
  function BlockOf(doc: Document, p: nat): (b: nat)
    requires |doc.blocks| > 0 && doc.blocks[0].position == 0
    ensures b < |doc.blocks| && doc.blocks[b].position <= p
    ensures p <= |doc.text| ==> p < End(doc, b)
  {
    BlockFrom(doc, p, |doc.blocks|)
  }

  lemma LinesInOrder(doc: Document, a: nat, b: nat)
    requires Sound(doc) && a < b < |doc.blocks|
    ensures End(doc, a) <= doc.blocks[b].position
  {
    assert a + 1 < b ==> doc.blocks[a + 1].position < doc.blocks[b].position;
  }

  /** Only the line that holds p can have it in its list. */
  lemma OnlyOwn(doc: Document, b: nat, p: nat)
    requires Sound(doc) && b < |doc.blocks| && doc.blocks[b].position <= p < End(doc, b)
    ensures Marked(doc, p) <==> Marks(doc.blocks[b], p)
    ensures BlockOf(doc, p) == b
  {
    forall a: nat | a < |doc.blocks| && doc.blocks[a].position <= p < End(doc, a) ensures a == b {
      if a < b {
        LinesInOrder(doc, a, b);
      }
      if b < a {
        LinesInOrder(doc, b, a);
      }
    }
    forall a | 0 <= a < |doc.blocks| && Marks(doc.blocks[a], p) ensures a == b {
      assert LineSound(doc, a);
    }
    assert LineSound(doc, b);
  }

  /** Just behind the first c braces of line b; the line's start if c is zero. */
  function Behind(doc: Document, b: nat, c: nat): nat
    requires b < |doc.blocks| && c <= |Braces(doc.blocks[b])|
  {
    doc.blocks[b].position + if c == 0 then 0 else Braces(doc.blocks[b])[c - 1] + 1
  }

  /** The position of brace c of line b; the line's end if it has only c braces. */
  function Before(doc: Document, b: nat, c: nat): nat
    requires b < |doc.blocks| && c <= |Braces(doc.blocks[b])|
  {
    if c == |Braces(doc.blocks[b])| then End(doc, b) else doc.blocks[b].position + Braces(doc.blocks[b])[c]
  }

  lemma NotListed(list: seq<nat>, c: nat, v: int)
    requires Ascending(list) && c <= |list|
    requires c > 0 ==> list[c - 1] < v
    requires c < |list| ==> v < list[c]
    ensures v !in list
  {
    forall k | 0 <= k < |list| ensures list[k] != v {
      if k < c {
        assert list[k] <= list[c - 1];
      } else {
        assert list[c] <= list[k];
      }
    }
  }

  /** Between two neighbouring braces of a line nothing is marked. */
  lemma Between(doc: Document, b: nat, c: nat, w: seq<int>, p: nat)
    requires Sound(doc) && b < |doc.blocks| && c <= |Braces(doc.blocks[b])|
    requires w == Weights(doc) && Behind(doc, b, c) <= p < Before(doc, b, c) && p < |w|
    ensures w[p] == 0
  {
    assert LineSound(doc, b);
    var list := Braces(doc.blocks[b]);
    if c < |list| { assert list[c] in list; }
    OnlyOwn(doc, b, p);
    NotListed(list, c, p - doc.blocks[b].position);
  }

  /** The braces of a line lie one behind the other and have a weight. */
  lemma BraceWeight(doc: Document, b: nat, c: nat, w: seq<int>)
    requires Sound(doc) && b < |doc.blocks| && c < |Braces(doc.blocks[b])| && w == Weights(doc)
    ensures Before(doc, b, c) < |w|
    ensures w[Before(doc, b, c)] == if doc.text[Before(doc, b, c)] == '{' then 1 else -1
    ensures doc.text[Before(doc, b, c)] in {'{', '}'}
  {
    assert LineSound(doc, b);
    assert Braces(doc.blocks[b])[c] in Braces(doc.blocks[b]);
    OnlyOwn(doc, b, Before(doc, b, c));
  }

  lemma Gap(doc: Document, b: nat, c: nat)
    requires Sound(doc) && b < |doc.blocks| && c <= |Braces(doc.blocks[b])|
    ensures Behind(doc, b, c) <= Before(doc, b, c) <= |doc.text| + 1
  {
    assert LineSound(doc, b);
    var list := Braces(doc.blocks[b]);
    if c > 0 { assert list[c - 1] in list; }
    if c < |list| { assert list[c] in list; }
  }

  lemma {:induction false} CloseAtSkips(w: seq<int>, p: nat, q: nat, depth: nat)
    requires p <= q && depth >= 1 && (forall x :: p <= x < q && x < |w| ==> w[x] == 0)
    ensures CloseAt(w, p, depth) == CloseAt(w, q, depth)
    decreases q - p
  {
    if p < q {
      CloseAtSkips(w, p + 1, q, depth);
    }
  }

  lemma {:induction false} OpenAtSkips(w: seq<int>, p: int, q: int, depth: nat)
    requires p <= q <= |w| && depth >= 1 && (forall x :: p <= x < q && 0 <= x ==> w[x] == 0)
    ensures OpenAt(w, q, depth) == OpenAt(w, p, depth)
    decreases q - p
  {
    if p < q {
      OpenAtSkips(w, p, q - 1, depth);
    }
  }

  function Max(a: int, b: int): int { if a < b then b else a }

  function Min(a: int, b: int): int { if a < b then a else b }

  /** What a search forwards from the cursor answers. */
  ghost function Closing(doc: Document, cursor: nat): int
    requires Sound(doc)
  {
    if Braces(doc.blocks[BlockOf(doc, cursor)]) == [] then -1
    else
      var j := CloseAt(Weights(doc), cursor + 1, 1);
      if j < |doc.text| then j else -1
  }

  /** What a search backwards from the cursor answers. */
  ghost function Opening(doc: Document, cursor: nat): int
    requires Sound(doc) && cursor <= |doc.text|
  {
    if Braces(doc.blocks[BlockOf(doc, cursor)]) == [] then -1
    else OpenAt(Weights(doc), cursor - 1, 1)
  }

  /** What the search forwards from the cursor will find when it is about to look at brace c of
      line b, or has left the last line. */
  ghost function Forward(doc: Document, cursor: nat, b: nat, c: nat, depth: nat): nat
    requires b < |doc.blocks| ==> c <= |Braces(doc.blocks[b])|
  {
    CloseAt(Weights(doc), Max(cursor + 1, if b < |doc.blocks| then Behind(doc, b, c) else |doc.text| + 1), depth)
  }

  /** The same backwards: c braces of line b are still to be looked at. */
  ghost function Backward(doc: Document, cursor: nat, b: int, c: nat, depth: nat): int
    requires b < |doc.blocks| && cursor <= |doc.text| && c <= Count(doc, b)
  {
    OpenAt(Weights(doc), Min(cursor - 1, if b >= 0 then Before(doc, b, c) else 0), depth)
  }

  lemma ForwardGap(doc: Document, b: nat, c: nat, w: seq<int>, cursor: nat, depth: nat)
    requires Sound(doc) && b < |doc.blocks| && c <= |Braces(doc.blocks[b])| && w == Weights(doc) && depth >= 1
    ensures CloseAt(w, Max(cursor + 1, Behind(doc, b, c)), depth)
      == CloseAt(w, Max(cursor + 1, Before(doc, b, c)), depth)
  {
    hide Sound, Weights, Behind, Before, CloseAt;
    Gap(doc, b, c);
    var p, q := Max(cursor + 1, Behind(doc, b, c)), Max(cursor + 1, Before(doc, b, c));
    forall x | p <= x < q && x < |w| ensures w[x] == 0 {
      Between(doc, b, c, w, x);
    }
    CloseAtSkips(w, p, q, depth);
  }

  lemma BackwardGap(doc: Document, b: nat, c: nat, w: seq<int>, cursor: nat, depth: nat)
    requires Sound(doc) && b < |doc.blocks| && c <= |Braces(doc.blocks[b])| && w == Weights(doc) && depth >= 1
    requires cursor <= |w|
    ensures OpenAt(w, Min(cursor - 1, Before(doc, b, c)), depth) == OpenAt(w, Min(cursor - 1, Behind(doc, b, c)), depth)
  {
    hide Sound, Weights, Behind, Before, OpenAt;
    Gap(doc, b, c);
    var p, q := Min(cursor - 1, Behind(doc, b, c)), Min(cursor - 1, Before(doc, b, c));
    forall x | p <= x < q && 0 <= x ensures w[x] == 0 {
      Between(doc, b, c, w, x);
    }
    OpenAtSkips(w, p, q, depth);
  }

  /** One brace of the walk forwards. */
  lemma ForwardBrace(doc: Document, b: nat, c: nat, cursor: nat, depth: nat, place: nat)
    requires Sound(doc) && b < |doc.blocks| && c < |Braces(doc.blocks[b])| && depth >= 1
    requires place == doc.blocks[b].position + Braces(doc.blocks[b])[c]
    ensures place < |doc.text|
    ensures place <= cursor ==> Forward(doc, cursor, b, c, depth) == Forward(doc, cursor, b, c + 1, depth)
    ensures place > cursor && doc.text[place] == '{' ==>
      Forward(doc, cursor, b, c, depth) == Forward(doc, cursor, b, c + 1, depth + 1)
    ensures place > cursor && doc.text[place] != '{' ==>
      Forward(doc, cursor, b, c, depth) == if depth == 1 then place else Forward(doc, cursor, b, c + 1, depth - 1)
  {
    hide Sound, Weights, WeightAt, Marked, LineSound;
    ForwardGap(doc, b, c, Weights(doc), cursor, depth);
    BraceWeight(doc, b, c, Weights(doc));
    assert Behind(doc, b, c + 1) == place + 1;
  }

  /** One brace of the walk backwards. */
  lemma BackwardBrace(doc: Document, b: nat, c: nat, cursor: nat, depth: nat, place: nat)
    requires Sound(doc) && b < |doc.blocks| && c < |Braces(doc.blocks[b])| && depth >= 1 && cursor <= |doc.text|
    requires place == doc.blocks[b].position + Braces(doc.blocks[b])[c]
    ensures place < |doc.text|
    ensures place >= cursor - 1 ==> Backward(doc, cursor, b, c + 1, depth) == Backward(doc, cursor, b, c, depth)
    ensures place < cursor - 1 && doc.text[place] == '}' ==>
      Backward(doc, cursor, b, c + 1, depth) == Backward(doc, cursor, b, c, depth + 1)
    ensures place < cursor - 1 && doc.text[place] != '}' ==>
      Backward(doc, cursor, b, c + 1, depth) == if depth == 1 then place else Backward(doc, cursor, b, c, depth - 1)
  {
    hide Sound, Weights, WeightAt, Marked, LineSound;
    BackwardGap(doc, b, c + 1, Weights(doc), cursor, depth);
    BraceWeight(doc, b, c, Weights(doc));
    assert Behind(doc, b, c + 1) == place + 1 && Before(doc, b, c) == place;
  }

  /** A line without further braces is left for its neighbour. */
  lemma ForwardLine(doc: Document, b: nat, cursor: nat, depth: nat)
    requires Sound(doc) && b < |doc.blocks| && depth >= 1
    ensures Forward(doc, cursor, b, |Braces(doc.blocks[b])|, depth) == Forward(doc, cursor, b + 1, 0, depth)
  {
    hide Sound, Weights;
    ForwardGap(doc, b, |Braces(doc.blocks[b])|, Weights(doc), cursor, depth);
  }

  function Count(doc: Document, b: int): nat
    requires b < |doc.blocks|
  {
    if b < 0 then 0 else |Braces(doc.blocks[b])|
  }

  lemma CountIs(doc: Document, b: nat)
    requires b < |doc.blocks|
    ensures Count(doc, b) == |Braces(doc.blocks[b])|
  {
  }

  lemma BackwardLine(doc: Document, b: nat, cursor: nat, depth: nat)
    requires Sound(doc) && b < |doc.blocks| && depth >= 1 && cursor <= |doc.text|
    ensures Backward(doc, cursor, b, 0, depth) ==
      Backward(doc, cursor, b - 1, Count(doc, b - 1), depth)
  {
    FirstLine(doc);
    hide Sound, Weights;
    BackwardGap(doc, b, 0, Weights(doc), cursor, depth);
  }

  /** Where the walks begin and end. */
  lemma ForwardEnd(doc: Document, cursor: nat, depth: nat)
    requires Sound(doc) && depth >= 1
    ensures Forward(doc, cursor, |doc.blocks|, 0, depth) == |doc.text|
  {
    hide Sound, Weights;
  }

  lemma BackwardEnd(doc: Document, cursor: nat, depth: nat)
    requires Sound(doc) && cursor <= |doc.text| && depth >= 1
    ensures Backward(doc, cursor, -1, Count(doc, -1), depth) == -1
  {
    hide Sound, Weights;
  }

  lemma ClosingIsForward(doc: Document, cursor: nat)
    requires Sound(doc) && cursor <= |doc.text|
    ensures var b := BlockOf(doc, cursor);
      Closing(doc, cursor) ==
        if Braces(doc.blocks[b]) == [] || Forward(doc, cursor, b, 0, 1) == |doc.text| then -1
        else Forward(doc, cursor, b, 0, 1)
  {
    hide Sound, Weights;
  }

  lemma OpeningIsBackward(doc: Document, cursor: nat)
    requires Sound(doc) && cursor <= |doc.text|
    ensures var b := BlockOf(doc, cursor);
      Opening(doc, cursor) ==
        if Braces(doc.blocks[b]) == [] then -1 else Backward(doc, cursor, b, Count(doc, b), 1)
  {
    hide Sound, Weights;
  }

  lemma FirstLine(doc: Document)
    requires Sound(doc)
    ensures |doc.blocks| > 0 && doc.blocks[0].position == 0
  {
  }

  // ----- the two searches undo each other -----

  /** A highlighted brace lies in the line the cursor is looked up in, before and behind it. */
  lemma MarkedPlace(doc: Document, p: nat)
    requires Sound(doc) && Marked(doc, p)
    ensures p < |doc.text| && doc.text[p] in {'{', '}'}
    ensures BlockOf(doc, p + 1) == BlockOf(doc, p) && Braces(doc.blocks[BlockOf(doc, p)]) != []
  {
    var b :| 0 <= b < |doc.blocks| && Marks(doc.blocks[b], p);
    assert LineSound(doc, b);
    OnlyOwn(doc, b, p);
    OnlyOwn(doc, b, p + 1);
  }

  /** From a highlighted opening brace the search forwards finds its match, and nothing else. */
  lemma ClosingIffMatching(doc: Document, p: nat, q: nat)
    requires Sound(doc) && Marked(doc, p) && p < |doc.text| && doc.text[p] == '{'
    ensures Closing(doc, p) == q <==> Matching(Weights(doc), p, q)
  {
    MarkedPlace(doc, p);
    var w := Weights(doc);
    hide Sound, Weights, Marked;
    assert IsWeights(w);
    assert w[p] == 1;
    if p < q < |w| {
      ClosesIffMatching(w, p, q);
    }
  }

  /** From behind a highlighted closing brace the search backwards finds its match, and nothing else. */
  lemma OpeningIffMatching(doc: Document, p: nat, q: nat)
    requires Sound(doc) && Marked(doc, q) && q < |doc.text| && doc.text[q] == '}'
    ensures Opening(doc, q + 1) == p <==> Matching(Weights(doc), p, q)
  {
    MarkedPlace(doc, q);
    var w := Weights(doc);
    hide Sound, Weights, Marked;
    assert IsWeights(w);
    assert w[q] == -1;
    if p < q {
      OpensIffMatching(w, p, q);
    }
  }

  /** What the search forwards finds is a highlighted closing brace behind the cursor. */
  lemma ClosingIsMarked(doc: Document, p: nat)
    requires Sound(doc) && Closing(doc, p) >= 0
    ensures p < Closing(doc, p) < |doc.text|
    ensures Marked(doc, Closing(doc, p)) && doc.text[Closing(doc, p)] == '}'
  {
    var w, q := Weights(doc), Closing(doc, p);
    hide Sound, Weights, Marked;
    assert IsWeights(w);
    CloseAtIff(w, p + 1, 1, q);
    assert Balance(w, p + 1, q + 1) == Balance(w, p + 1, q) + w[q];
    assert 1 + Balance(w, p + 1, q) >= 1;
    assert w[q] == -1 && Marked(doc, q);
    MarkedPlace(doc, q);
  }

  /** From any opening brace whose match is found, the search backwards leads back to it if and only
      if the highlighter took it for a brace (it may stand in a comment or a string). */
  lemma ThereAndBackIff(doc: Document, p: nat)
    requires Sound(doc) && p < |doc.text| && doc.text[p] == '{' && Closing(doc, p) >= 0
    ensures Opening(doc, Closing(doc, p) + 1) == p <==> Marked(doc, p)
  {
    hide Sound, Weights, Marked, Closing, Opening, Balance;
    var q := Closing(doc, p);
    ClosingIsMarked(doc, p);
    OpeningIffMatching(doc, p, q);
    if Marked(doc, p) {
      ClosingIffMatching(doc, p, q);
    } else {
      assert Weights(doc)[p] == 0;
    }
  }

  /** What the search backwards finds is a highlighted opening brace before the cursor. */
  lemma OpeningIsMarked(doc: Document, cursor: nat)
    requires Sound(doc) && cursor <= |doc.text| && Opening(doc, cursor) >= 0
    ensures Opening(doc, cursor) < cursor - 1
    ensures Marked(doc, Opening(doc, cursor)) && doc.text[Opening(doc, cursor)] == '{'
  {
    var w, p := Weights(doc), Opening(doc, cursor);
    hide Sound, Weights, Marked;
    assert IsWeights(w);
    var next, k := p + 1, cursor - 1;
    OpenAtIff(w, k, 1, p);
    BalanceSplit(w, p, next, k);
    assert Balance(w, p, p) == 0;
    assert Balance(w, p, next) == w[p];
    assert 1 - Balance(w, next, k) >= 1;
    assert w[p] == 1 && Marked(doc, p);
  }

  /** And conversely, from any closing brace whose match is found. */
  lemma BackAndThereIff(doc: Document, q: nat)
    requires Sound(doc) && q < |doc.text| && doc.text[q] == '}' && Opening(doc, q + 1) >= 0
    ensures Closing(doc, Opening(doc, q + 1)) == q <==> Marked(doc, q)
  {
    var p := Opening(doc, q + 1);
    OpeningIsMarked(doc, q + 1);
    hide Sound, Weights, Closing, Opening, Balance;
    if Marked(doc, q) {
      OpeningIffMatching(doc, p, q);
      ClosingIffMatching(doc, p, q);
    } else if Closing(doc, p) == q {
      ClosingIsMarked(doc, p);
    }
  }

  // ----- a brace in a comment -----

  const COMMENTED: Document := Document("/*{*/}", [Block(0, Some([5]))])

  lemma CommentedSound()
    ensures Sound(COMMENTED) && Marked(COMMENTED, 5)
    ensures forall p: nat :: Marked(COMMENTED, p) ==> p == 5
  {
    assert LineSound(COMMENTED, 0);
    assert Marks(COMMENTED.blocks[0], 5);
  }

  /** The opening brace in the comment finds the brace behind it, and the way back finds nothing. */
  lemma NoWayBack()
    ensures Sound(COMMENTED)
    ensures Closing(COMMENTED, 2) == 5 && Opening(COMMENTED, 6) == -1
  {
    CommentedSound();
    var w := Weights(COMMENTED);
    assert w[3] == w[4] == 0 && w[5] == -1;
    assert w[0] == w[1] == w[2] == 0;
    hide Weights, Marked, Sound;
    CloseAtSkips(w, 3, 5, 1);
    OpenAtSkips(w, 0, 5, 1);
    assert BlockOf(COMMENTED, 2) == 0 && BlockOf(COMMENTED, 6) == 0;
  }
}
