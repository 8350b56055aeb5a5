/** The two searches of the shader editor for a matching brace (gui/glsledit.cpp:496-548): on any
    document a walk over the lists of the lines, on a sound one a scan of the text. */
module BraceSearch {
  import opened Brackets

  // ----- the walks over the lists -----

  /** The document's character, or the null character outside the text. */
  function CharacterAt(doc: Document, p: nat): char {
    if p < |doc.text| then doc.text[p] else '\0'
  }

  /** The lines of a text document begin at its start. */
  predicate Begins(doc: Document) {
    |doc.blocks| > 0 && doc.blocks[0].position == 0
  }

  /** The places of a line's braces in the document. */
  function Places(b: Block): (s: seq<nat>)
    ensures |s| == |Braces(b)|
  {
    seq(|Braces(b)|, c requires 0 <= c < |Braces(b)| => b.position + Braces(b)[c])
  }

  /** Those of line b and all lines behind it. */
  function PlacesFrom(doc: Document, b: nat): seq<nat>
    decreases |doc.blocks| - b
  {
    if b >= |doc.blocks| then [] else Places(doc.blocks[b]) + PlacesFrom(doc, b + 1)
  }

  /** Those of line b and all lines before it. */
  function PlacesUpTo(doc: Document, b: int): seq<nat>
    requires b < |doc.blocks|
    decreases b
  {
    if b < 0 then [] else PlacesUpTo(doc, b - 1) + Places(doc.blocks[b])
  }

  /** The first place behind the cursor at which the braces read so far close one more than they
      open, if `depth` - 1 were open before; -1 if there is none.  What is no opening brace closes. */
  function FirstClosing(doc: Document, cursor: nat, places: seq<nat>, depth: nat): int {
    if places == [] then -1
    else if places[0] <= cursor then FirstClosing(doc, cursor, places[1..], depth)
    else if CharacterAt(doc, places[0]) == '{' then FirstClosing(doc, cursor, places[1..], depth + 1)
    else if depth <= 1 then places[0]
    else FirstClosing(doc, cursor, places[1..], depth - 1)
  }

  /** The same from the end, before the brace left of the cursor.  What is no closing brace opens. */
  function LastOpening(doc: Document, cursor: nat, places: seq<nat>, depth: nat): int {
    if places == [] then -1
    else
      var init, last := places[..|places| - 1], places[|places| - 1];
      if last >= cursor - 1 then LastOpening(doc, cursor, init, depth)
      else if CharacterAt(doc, last) == '}' then LastOpening(doc, cursor, init, depth + 1)
      else if depth <= 1 then last
      else LastOpening(doc, cursor, init, depth - 1)
  }

  // ----- places ahead of a walk -----

  /** What is still to be read from brace c of line b on. */
  function Ahead(doc: Document, b: nat, c: nat): seq<nat>
    requires b < |doc.blocks| && c <= |Braces(doc.blocks[b])|
  {
    Places(doc.blocks[b])[c..] + PlacesFrom(doc, b + 1)
  }

  /** What is still to be read backwards from brace c - 1 of line b on. */
  function Remaining(doc: Document, b: nat, c: nat): seq<nat>
    requires b < |doc.blocks| && c <= |Braces(doc.blocks[b])|
  {
    PlacesUpTo(doc, b - 1) + Places(doc.blocks[b])[..c]
  }

  lemma AheadStep(doc: Document, b: nat, c: nat)
    requires b < |doc.blocks| && c < |Braces(doc.blocks[b])|
    ensures Ahead(doc, b, c) == [doc.blocks[b].position + Braces(doc.blocks[b])[c]] + Ahead(doc, b, c + 1)
  {
    var s := Places(doc.blocks[b]);
    assert s[c..] == [s[c]] + s[c + 1..];
  }

  lemma AheadLine(doc: Document, b: nat)
    requires b < |doc.blocks|
    ensures Ahead(doc, b, 0) == PlacesFrom(doc, b)
    ensures Ahead(doc, b, |Braces(doc.blocks[b])|) == PlacesFrom(doc, b + 1)
  {
    var s := Places(doc.blocks[b]);
    assert s[0..] == s && s[|s|..] == [];
  }

  lemma RemainingStep(doc: Document, b: nat, c: nat)
    requires b < |doc.blocks| && c < |Braces(doc.blocks[b])|
    ensures Remaining(doc, b, c + 1) == Remaining(doc, b, c) + [doc.blocks[b].position + Braces(doc.blocks[b])[c]]
  {
    var s := Places(doc.blocks[b]);
    assert s[..c + 1] == s[..c] + [s[c]];
  }

  lemma RemainingLine(doc: Document, b: nat)
    requires b < |doc.blocks|
    ensures Remaining(doc, b, |Braces(doc.blocks[b])|) == PlacesUpTo(doc, b)
    ensures Remaining(doc, b, 0) == PlacesUpTo(doc, b - 1)
  {
    var s := Places(doc.blocks[b]);
    assert s[..|s|] == s && s[..0] == [];
  }

  lemma FirstOf(doc: Document, cursor: nat, place: nat, more: seq<nat>, depth: nat)
    ensures FirstClosing(doc, cursor, [place] + more, depth) ==
      if place <= cursor then FirstClosing(doc, cursor, more, depth)
      else if CharacterAt(doc, place) == '{' then FirstClosing(doc, cursor, more, depth + 1)
      else if depth <= 1 then place
      else FirstClosing(doc, cursor, more, depth - 1)
  {
    assert ([place] + more)[1..] == more;
  }

  lemma LastOf(doc: Document, cursor: nat, place: nat, more: seq<nat>, depth: nat)
    ensures LastOpening(doc, cursor, more + [place], depth) ==
      if place >= cursor - 1 then LastOpening(doc, cursor, more, depth)
      else if CharacterAt(doc, place) == '}' then LastOpening(doc, cursor, more, depth + 1)
      else if depth <= 1 then place
      else LastOpening(doc, cursor, more, depth - 1)
  {
    assert (more + [place])[..|more|] == more;
  }

  // ----- the searches -----

  /** The inner loop of the search forwards: the place found in line b, or the depth behind it. */
  method CloseInLine(doc: Document, b: nat, cursor: nat, depth: nat) returns (place: nat, d: nat)
    requires b < |doc.blocks| && depth >= 1
    ensures FirstClosing(doc, cursor, PlacesFrom(doc, b), depth) ==
      if d == 0 then place else FirstClosing(doc, cursor, PlacesFrom(doc, b + 1), d)
  {
    AheadLine(doc, b);
    hide FirstClosing, PlacesFrom, Ahead;
    var list := Braces(doc.blocks[b]);
    d := depth;
    for c := 0 to |list|
      invariant d >= 1
      invariant FirstClosing(doc, cursor, PlacesFrom(doc, b), depth) == FirstClosing(doc, cursor, Ahead(doc, b, c), d)
    {
      place := doc.blocks[b].position + list[c];
      AheadStep(doc, b, c);
      FirstOf(doc, cursor, place, Ahead(doc, b, c + 1), d);
      if place <= cursor {
        continue;
      }
      if CharacterAt(doc, place) == '{' {
        d := d + 1;
      } else {
        d := d - 1;
      }
      if d == 0 {
        return;
      }
    }
    place := 0;
  }

  method FindClosingMatch(doc: Document, cursor: nat) returns (r: int)
    requires Begins(doc) && doc.blocks[BlockOf(doc, cursor)].data.Some?
    ensures var b := BlockOf(doc, cursor);
      r == if Braces(doc.blocks[b]) == [] then -1 else FirstClosing(doc, cursor, PlacesFrom(doc, b), 1)
    ensures Sound(doc) && cursor <= |doc.text| ==> r == Closing(doc, cursor)
  {
    var b := BlockOf(doc, cursor);
    if Sound(doc) && cursor <= |doc.text| {
      ClosingIsWalk(doc, cursor);
    }
    hide *;
    if Braces(doc.blocks[b]) != [] {
      ghost var answer := FirstClosing(doc, cursor, PlacesFrom(doc, b), 1);
      var depth := 1;
      while b < |doc.blocks|
        invariant b <= |doc.blocks| && depth >= 1
        invariant answer == FirstClosing(doc, cursor, PlacesFrom(doc, b), depth)
      {
        var place, d := CloseInLine(doc, b, cursor, depth);
        if d == 0 {
          return place;
        }
        depth := d;
        b := b + 1;
      }
      NothingBehind(doc, cursor, depth);
    }
    return -1;
  }

  lemma NothingBehind(doc: Document, cursor: nat, depth: nat)
    ensures FirstClosing(doc, cursor, PlacesFrom(doc, |doc.blocks|), depth) == -1
    ensures LastOpening(doc, cursor, PlacesUpTo(doc, -1), depth) == -1
  {
  }

  /** The inner loop of the search backwards. */
  method OpenInLine(doc: Document, b: nat, cursor: nat, depth: nat) returns (place: nat, d: nat)
    requires b < |doc.blocks| && depth >= 1
    ensures LastOpening(doc, cursor, PlacesUpTo(doc, b), depth) ==
      if d == 0 then place else LastOpening(doc, cursor, PlacesUpTo(doc, b - 1), d)
  {
    RemainingLine(doc, b);
    hide LastOpening, PlacesUpTo, Remaining;
    var list := Braces(doc.blocks[b]);
    d := depth;
    for c := |list| downto 0
      invariant d >= 1
      invariant LastOpening(doc, cursor, PlacesUpTo(doc, b), depth) ==
        LastOpening(doc, cursor, Remaining(doc, b, c), d)
    {
      place := doc.blocks[b].position + list[c];
      RemainingStep(doc, b, c);
      LastOf(doc, cursor, place, Remaining(doc, b, c), d);
      if place >= cursor - 1 {
        continue;
      }
      if CharacterAt(doc, place) == '}' {
        d := d + 1;
      } else {
        d := d - 1;
      }
      if d == 0 {
        return;
      }
    }
    place := 0;
  }

  method FindOpeningMatch(doc: Document, cursor: nat) returns (r: int)
    requires Begins(doc) && doc.blocks[BlockOf(doc, cursor)].data.Some?
    ensures var b := BlockOf(doc, cursor);
      r == if Braces(doc.blocks[b]) == [] then -1 else LastOpening(doc, cursor, PlacesUpTo(doc, b), 1)
    ensures Sound(doc) && cursor <= |doc.text| ==> r == Opening(doc, cursor)
  {
    var b: int := BlockOf(doc, cursor);
    if Sound(doc) && cursor <= |doc.text| {
      OpeningIsWalk(doc, cursor);
    }
    hide *;
    if Braces(doc.blocks[b]) != [] {
      ghost var answer := LastOpening(doc, cursor, PlacesUpTo(doc, b), 1);
      var depth := 1;
      while b >= 0
        invariant -1 <= b < |doc.blocks| && depth >= 1
        invariant answer == LastOpening(doc, cursor, PlacesUpTo(doc, b), depth)
      {
        var place, d := OpenInLine(doc, b, cursor, depth);
        if d == 0 {
          return place;
        }
        depth := d;
        b := b - 1;
      }
      NothingBehind(doc, cursor, depth);
    }
    return -1;
  }

  // ----- on a sound document the walks are scans of the text -----

  /** The scan's answer, with -1 for the end of the text. */
  ghost function Found(doc: Document, j: nat): int {
    if j == |doc.text| then -1 else j
  }

  lemma {:induction false} ForwardIsWalk(doc: Document, cursor: nat, b: nat, c: nat, depth: nat)
    requires Sound(doc) && b < |doc.blocks| && c <= |Braces(doc.blocks[b])| && depth >= 1
    ensures FirstClosing(doc, cursor, Ahead(doc, b, c), depth) == Found(doc, Forward(doc, cursor, b, c, depth))
    decreases |doc.blocks| - b, |Braces(doc.blocks[b])| - c
  {
    hide Sound, Forward, FirstClosing, Ahead, PlacesFrom;
    if c < |Braces(doc.blocks[b])| {
      var place := doc.blocks[b].position + Braces(doc.blocks[b])[c];
      AheadStep(doc, b, c);
      FirstOf(doc, cursor, place, Ahead(doc, b, c + 1), depth);
      ForwardBrace(doc, b, c, cursor, depth, place);
      ForwardIsWalk(doc, cursor, b, c + 1, depth);
      ForwardIsWalk(doc, cursor, b, c + 1, depth + 1);
      if depth > 1 {
        ForwardIsWalk(doc, cursor, b, c + 1, depth - 1);
      }
    } else {
      ForwardLine(doc, b, cursor, depth);
      AheadLine(doc, b);
      if b + 1 < |doc.blocks| {
        AheadLine(doc, b + 1);
        ForwardIsWalk(doc, cursor, b + 1, 0, depth);
      } else {
        ForwardEnd(doc, cursor, depth);
        NothingBehind(doc, cursor, depth);
      }
    }
  }

  lemma {:induction false} BackwardIsWalk(doc: Document, cursor: nat, b: nat, c: nat, depth: nat)
    requires Sound(doc) && b < |doc.blocks| && c <= |Braces(doc.blocks[b])| && depth >= 1 && cursor <= |doc.text|
    requires c <= Count(doc, b)
    ensures LastOpening(doc, cursor, Remaining(doc, b, c), depth) == Backward(doc, cursor, b, c, depth)
    decreases b, c
  {
    hide Sound, Backward, LastOpening, Remaining, PlacesUpTo;
    if c > 0 {
      var place := doc.blocks[b].position + Braces(doc.blocks[b])[c - 1];
      RemainingStep(doc, b, c - 1);
      LastOf(doc, cursor, place, Remaining(doc, b, c - 1), depth);
      BackwardBrace(doc, b, c - 1, cursor, depth, place);
      BackwardIsWalk(doc, cursor, b, c - 1, depth);
      BackwardIsWalk(doc, cursor, b, c - 1, depth + 1);
      if depth > 1 {
        BackwardIsWalk(doc, cursor, b, c - 1, depth - 1);
      }
    } else {
      BackwardLine(doc, b, cursor, depth);
      RemainingLine(doc, b);
      if b > 0 {
        RemainingLine(doc, b - 1);
        BackwardIsWalk(doc, cursor, b - 1, Count(doc, b - 1), depth);
      } else {
        BackwardEnd(doc, cursor, depth);
        NothingBehind(doc, cursor, depth);
      }
    }
  }

  lemma ClosingIsWalk(doc: Document, cursor: nat)
    requires Sound(doc) && cursor <= |doc.text|
    ensures var b := BlockOf(doc, cursor);
      Closing(doc, cursor) ==
        if Braces(doc.blocks[b]) == [] then -1 else FirstClosing(doc, cursor, PlacesFrom(doc, b), 1)
  {
    var b := BlockOf(doc, cursor);
    ClosingIsForward(doc, cursor);
    hide Sound, Closing, FirstClosing, Forward;
    AheadLine(doc, b);
    ForwardIsWalk(doc, cursor, b, 0, 1);
  }

  lemma OpeningIsWalk(doc: Document, cursor: nat)
    requires Sound(doc) && cursor <= |doc.text|
    ensures var b := BlockOf(doc, cursor);
      Opening(doc, cursor) ==
        if Braces(doc.blocks[b]) == [] then -1 else LastOpening(doc, cursor, PlacesUpTo(doc, b), 1)
  {
    var b := BlockOf(doc, cursor);
    OpeningIsBackward(doc, cursor);
    CountIs(doc, b);
    hide Sound, Opening, LastOpening, Backward, Count;
    RemainingLine(doc, b);
    BackwardIsWalk(doc, cursor, b, Count(doc, b), 1);
  }
}
