/** How the shader editor's highlighter finds the braces of a line (gui/glsledit.cpp): a lexer with
    look-ahead, proved against a reading of the line one character at a time. */
module Highlighter {

  import opened Options
  import opened Brackets

  // ----- reading one character at a time -----

  /** What a character is read as.  Opened and Closed: it is the second half of a comment mark. */
  datatype Mode = Code | LineComment | Comment | Quoted(end: char) | Opened | Closed

  /** The character at k, '\0' outside the line. */
  function CharAt(line: string, k: int): char {
    if 0 <= k < |line| then line[k] else '\0'
  }

  function Next(m: Mode, prev: char, ch: char, next: char): Mode {
    match m
    case Code =>
      if ch == '/' && next == '*' then Opened
      else if ch == '/' && next == '/' then LineComment
      else if ch in {'/', '\'', '\"'} then Quoted(ch)
      else Code
    case LineComment => LineComment
    case Comment => if ch == '*' && next == '/' then Closed else Comment
    case Quoted(end) => if ch == end && prev != '\\' then Code else m
    case Opened => Comment
    case Closed => Code
  }

  /** How character k of a line is read when the line begins in mode m. */
  function ModeAt(line: string, m: Mode, k: nat): Mode {
    if k == 0 then m
    else Next(ModeAt(line, m, k - 1), CharAt(line, k - 2), CharAt(line, k - 1), CharAt(line, k))
  }

  predicate IsBrace(line: string, m: Mode, k: nat) {
    k < |line| && line[k] in {'{', '}'} && ModeAt(line, m, k) == Code
  }

  /** The braces among the first n characters that are neither in a comment nor quoted. */
  function Collected(line: string, m: Mode, n: nat): seq<nat> {
    if n == 0 then []
    else Collected(line, m, n - 1) + if IsBrace(line, m, n - 1) then [n - 1] else []
  }

  /** Opening minus closing braces among them. */
  function Nesting(line: string, m: Mode, n: nat): int {
    if n == 0 then 0
    else Nesting(line, m, n - 1) + if !IsBrace(line, m, n - 1) then 0 else if line[n - 1] == '{' then 1 else -1
  }

  lemma {:induction false} CollectedMeaning(line: string, m: Mode, n: nat)
    ensures Ascending(Collected(line, m, n))
    ensures forall k: nat :: k in Collected(line, m, n) <==> k < n && IsBrace(line, m, k)
  {
    if n > 0 {
      CollectedMeaning(line, m, n - 1);
      var before := Collected(line, m, n - 1);
      assert forall k :: 0 <= k < |before| ==> before[k] in before;
    }
  }

  /** Behind // nothing is read as code. */
  lemma {:induction false} LineCommentStays(line: string, m: Mode, i: nat, n: nat)
    requires i <= n && ModeAt(line, m, i) == LineComment
    ensures ModeAt(line, m, n) == LineComment
    ensures Collected(line, m, n) == Collected(line, m, i) && Nesting(line, m, n) == Nesting(line, m, i)
    decreases n
  {
    if i < n {
      LineCommentStays(line, m, i, n - 1);
    }
  }

  /** A quotation that opens at k lasts until its end character stands without a backslash before it,
      and code goes on behind that. */
  lemma {:induction false} QuotationLasts(line: string, m: Mode, k: nat, j: nat, end: char)
    requires k < j <= |line| && ModeAt(line, m, k + 1) == Quoted(end)
    requires forall i :: k < i < j ==> !(line[i] == end && line[i - 1] != '\\')
    ensures ModeAt(line, m, j) == Quoted(end)
    ensures j < |line| && line[j] == end && line[j - 1] != '\\' ==> ModeAt(line, m, j + 1) == Code
    decreases j
  {
    if k + 1 < j {
      QuotationLasts(line, m, k, j - 1, end);
    }
  }

  /** A quotation opens in code at a quote, and at a slash that starts no comment. */
  lemma QuotationOpens(line: string, m: Mode, k: nat)
    requires k < |line| && ModeAt(line, m, k) == Code
    ensures (exists end: char :: ModeAt(line, m, k + 1) == Quoted(end))
      <==> line[k] in {'\'', '\"'} || (line[k] == '/' && CharAt(line, k + 1) !in {'/', '*'})
    ensures ModeAt(line, m, k + 1).Quoted? ==> ModeAt(line, m, k + 1) == Quoted(line[k])
  {
  }

  // ----- the lexer -----

  /** The character classes the lexer asks for. */
  datatype Classes = Classes(space: char -> bool, digit: char -> bool, letter: char -> bool)

  ghost predicate Proper(cs: Classes) {
    forall ch: char :: ch in {'{', '}', '/', '\'', '\"'} ==> !cs.space(ch) && !cs.digit(ch) && !cs.letter(ch)
  }

  lemma NotSpecial(cs: Classes, ch: char)
    requires Proper(cs)
    ensures cs.space(ch) || cs.digit(ch) || cs.letter(ch) ==> Plain(ch)
    ensures Plain(ch) <==> ch !in {'{', '}', '/', '\'', '\"'}
  {
  }

  datatype State = Start | Number | Identifier | Str | Remark | Regex

  /** A line's state as the text document stores it: the nesting in the upper bits. */
  function Pack(level: int, inComment: bool): int {
    16 * level + if inComment then 4 else 0
  }

  function LevelOf(previous: int): int {
    if previous < 0 then 0 else previous / 16
  }

  function ModeOf(previous: int): Mode {
    if previous >= 0 && previous % 16 == 4 then Comment else Code
  }

  /** The packed state gives nesting and comment back if and only if the nesting is not negative. */
  lemma PackIff(level: int, inComment: bool)
    ensures level >= 0 <==>
      (LevelOf(Pack(level, inComment)) == level
       && ModeOf(Pack(level, inComment)) == if inComment then Comment else Code)
  {
  }

  /** What the lexer's state says about the mode at its place, which may be one past the line. */
  ghost predicate Agrees(line: string, m: Mode, state: State, start: nat, i: nat) {
    var mode := ModeAt(line, m, i);
    match state
    case Str => start < |line| && start < i && line[start] in {'\'', '\"'} && mode == Quoted(line[start])
    case Remark => mode == Comment
    case Regex => mode == Quoted('/')
    case _ => mode == Code || (i >= |line| && mode == LineComment)
  }

  /** What has been gathered when the lexer is at i. */
  ghost predicate Gathered(line: string, m: Mode, i: nat, braces: seq<nat>, level: int, level0: int) {
    braces == Collected(line, m, i) && level == level0 + Nesting(line, m, i)
  }

  lemma GatheredIs(line: string, m: Mode, i: nat, braces: seq<nat>, level: int, level0: int)
    requires Gathered(line, m, i, braces, level, level0)
    ensures braces == Collected(line, m, i) && level == level0 + Nesting(line, m, i)
  {
  }

  lemma OneStep(line: string, m: Mode, i: nat)
    ensures ModeAt(line, m, i + 1) ==
      Next(ModeAt(line, m, i), CharAt(line, i - 1), CharAt(line, i), CharAt(line, i + 1))
  {
  }

  /** What is gathered at one more character. */
  lemma GatherStep(line: string, m: Mode, i: nat, braces: seq<nat>, level: int, level0: int)
    requires Gathered(line, m, i, braces, level, level0)
    ensures if CharAt(line, i) in {'{', '}'} && ModeAt(line, m, i) == Code then
        Gathered(line, m, i + 1, braces + [i], if CharAt(line, i) == '{' then level + 1 else level - 1, level0)
      else Gathered(line, m, i + 1, braces, level, level0)
  {
  }

  /** Behind // nothing more is gathered. */
  lemma GatherRest(line: string, m: Mode, i: nat, braces: seq<nat>, level: int, level0: int)
    requires Gathered(line, m, i, braces, level, level0) && i <= |line| && ModeAt(line, m, i) == LineComment
    ensures Gathered(line, m, |line|, braces, level, level0) && ModeAt(line, m, |line|) == LineComment
  {
    LineCommentStays(line, m, i, |line|);
  }

  /** The null character behind the line changes nothing. */
  lemma EndOfLine(line: string, m: Mode, braces: seq<nat>, level: int, level0: int)
    requires m in {Code, Comment} && Gathered(line, m, |line| + 1, braces, level, level0)
    ensures Gathered(line, m, |line|, braces, level, level0)
    ensures ModeAt(line, m, |line| + 1) == Comment <==> ModeAt(line, m, |line|) == Comment
  {
    OneStep(line, m, |line|);
    if |line| > 0 {
      OneStep(line, m, |line| - 1);
    }
    GatherStep(line, m, |line|, Collected(line, m, |line|), level0 + Nesting(line, m, |line|), level0);
    hide Collected, Nesting;
  }

  lemma Nothing(line: string, m: Mode)
    ensures ModeAt(line, m, 0) == m && Collected(line, m, 0) == [] && Nesting(line, m, 0) == 0
  {
  }

  /** The lexer's variables; level0 is the nesting at the start of the line. */
  datatype Lexer = Lexer(state: State, start: nat, i: nat, braces: seq<nat>, level: int)

  ghost predicate Right(line: string, m: Mode, level0: int, x: Lexer) {
    x.i <= |line| + 1 && Agrees(line, m, x.state, x.start, x.i) && Gathered(line, m, x.i, x.braces, x.level, level0)
  }

  predicate Plain(ch: char) { ch !in {'{', '}', '/', '\'', '\"'} }

  predicate InCode(state: State) { state in {Start, Number, Identifier} }

  lemma CodeStates()
    ensures InCode(Start) && InCode(Number) && InCode(Identifier)
  {
  }

  lemma InCodeAgain(line: string, m: Mode, level0: int, x: Lexer, start: nat)
    requires Right(line, m, level0, x) && InCode(x.state)
    ensures Right(line, m, level0, x.(state := Start, start := start))
  {
    hide ModeAt, Gathered;
  }

  /** A character of code that is neither a brace nor a quote nor a slash. */
  lemma PlainStep(line: string, m: Mode, level0: int, x: Lexer, start: nat, state: State)
    requires Right(line, m, level0, x) && InCode(x.state) && x.i <= |line| && Plain(CharAt(line, x.i)) && InCode(state)
    ensures Right(line, m, level0, x.(state := state, start := start, i := x.i + 1))
  {
    OneStep(line, m, x.i);
    GatherStep(line, m, x.i, x.braces, x.level, level0);
    hide ModeAt, Gathered;
  }

  lemma BraceStep(line: string, m: Mode, level0: int, x: Lexer)
    requires Right(line, m, level0, x) && x.state == Start && x.i <= |line| && CharAt(line, x.i) in {'{', '}'}
    ensures Right(line, m, level0,
      Lexer(Start, x.i, x.i + 1, x.braces + [x.i], if CharAt(line, x.i) == '{' then x.level + 1 else x.level - 1))
  {
    OneStep(line, m, x.i);
    GatherStep(line, m, x.i, x.braces, x.level, level0);
    hide ModeAt, Gathered;
  }

  lemma QuoteStep(line: string, m: Mode, level0: int, x: Lexer)
    requires Right(line, m, level0, x) && x.state == Start && x.i <= |line| && CharAt(line, x.i) in {'\'', '\"'}
    ensures Right(line, m, level0, x.(state := Str, start := x.i, i := x.i + 1))
  {
    OneStep(line, m, x.i);
    GatherStep(line, m, x.i, x.braces, x.level, level0);
    hide ModeAt, Gathered;
  }

  /** A slash: the start of a comment, the rest of the line, or the start of a quotation. */
  lemma SlashStep(line: string, m: Mode, level0: int, x: Lexer)
    requires Right(line, m, level0, x) && x.state == Start && x.i <= |line| && CharAt(line, x.i) == '/'
    ensures CharAt(line, x.i + 1) == '*' ==> Right(line, m, level0, x.(state := Remark, start := x.i, i := x.i + 2))
    ensures CharAt(line, x.i + 1) == '/' ==> x.i < |line| && Right(line, m, level0, x.(start := x.i, i := |line|))
    ensures CharAt(line, x.i + 1) !in {'*', '/'} ==>
      Right(line, m, level0, x.(state := Regex, start := x.i, i := x.i + 1))
  {
    OneStep(line, m, x.i);
    OneStep(line, m, x.i + 1);
    GatherStep(line, m, x.i, x.braces, x.level, level0);
    if CharAt(line, x.i + 1) == '*' {
      GatherStep(line, m, x.i + 1, x.braces, x.level, level0);
    } else if CharAt(line, x.i + 1) == '/' {
      GatherRest(line, m, x.i + 1, x.braces, x.level, level0);
    }
    hide ModeAt, Gathered;
  }

  /** A character in a quotation. */
  lemma QuotedStep(line: string, m: Mode, level0: int, x: Lexer)
    requires Right(line, m, level0, x) && x.i <= |line|
    requires x.state == Regex || (x.state == Str && x.start < |line|)
    ensures var end := if x.state == Regex then '/' else line[x.start];
      var closes := CharAt(line, x.i) == end && CharAt(line, x.i - 1) != '\\';
      Right(line, m, level0, x.(state := if closes then Start else x.state, i := x.i + 1))
  {
    OneStep(line, m, x.i);
    GatherStep(line, m, x.i, x.braces, x.level, level0);
    hide ModeAt, Gathered;
  }

  /** A character in a comment. */
  lemma RemarkStep(line: string, m: Mode, level0: int, x: Lexer)
    requires Right(line, m, level0, x) && x.state == Remark && x.i <= |line|
    ensures if CharAt(line, x.i) == '*' && CharAt(line, x.i + 1) == '/' then
        Right(line, m, level0, x.(state := Start, i := x.i + 2))
      else Right(line, m, level0, x.(i := x.i + 1))
  {
    OneStep(line, m, x.i);
    OneStep(line, m, x.i + 1);
    GatherStep(line, m, x.i, x.braces, x.level, level0);
    if CharAt(line, x.i) == '*' && CharAt(line, x.i + 1) == '/' {
      GatherStep(line, m, x.i + 1, x.braces, x.level, level0);
    }
    hide ModeAt, Gathered;
  }

  lemma RightStart(line: string, previous: int)
    requires previous >= 0 ==> previous % 16 in {0, 4}
    ensures ModeOf(previous) in {Code, Comment}
    ensures Right(line, ModeOf(previous), LevelOf(previous),
      Lexer(if previous >= 0 && previous % 16 == 4 then Remark else Start, 0, 0, [], LevelOf(previous)))
  {
    Nothing(line, ModeOf(previous));
  }

  lemma RightEnd(line: string, m: Mode, level0: int, x: Lexer)
    requires Right(line, m, level0, x) && x.i > |line| && m in {Code, Comment}
    ensures x.braces == Collected(line, m, |line|) && x.level == level0 + Nesting(line, m, |line|)
    ensures x.state == Remark <==> ModeAt(line, m, |line|) == Comment
  {
    EndOfLine(line, m, x.braces, x.level, level0);
    GatheredIs(line, m, |line|, x.braces, x.level, level0);
    hide ModeAt, Gathered, Collected, Nesting;
  }

  lemma QuoteInLine(line: string, m: Mode, level0: int, x: Lexer)
    requires Right(line, m, level0, x)
    ensures x.i <= |line| + 1 && (x.state == Str ==> x.start < |line|)
  {
    hide ModeAt, Gathered;
  }

  method HighlightBlock(line: string, previous: int, kept: Option<seq<nat>>, cs: Classes)
    returns (data: Option<seq<nat>>, current: int)
    requires Proper(cs) && (previous >= 0 ==> previous % 16 in {0, 4})
    ensures var m := ModeOf(previous);
      && data == (if Collected(line, m, |line|) == [] then kept else Some(Collected(line, m, |line|)))
      && current == Pack(LevelOf(previous) + Nesting(line, m, |line|), ModeAt(line, m, |line|) == Comment)
  {
    hide *;
    RightStart(line, previous);
    ghost var m, level0 := ModeOf(previous), LevelOf(previous);
    var level := LevelOf(previous);
    var state := if previous >= 0 && previous % 16 == 4 then Remark else Start;
    var braces: seq<nat> := [];
    var start: nat, i: nat := 0, 0;
    while i <= |line|
      invariant Right(line, m, level0, Lexer(state, start, i, braces, level))
      decreases |line| + 1 - i, if state in {Number, Identifier} then 1 else 0
    {
      var ch, next := CharAt(line, i), CharAt(line, i + 1);
      ghost var x := Lexer(state, start, i, braces, level);
      QuoteInLine(line, m, level0, x);
      NotSpecial(cs, ch);
      CodeStates();
      match state {
        case Start =>
          start := i;
          if Plain(ch) {
            PlainStep(line, m, level0, x, i, Start);
            PlainStep(line, m, level0, x, i, Number);
            PlainStep(line, m, level0, x, i, Identifier);
          }
          if cs.space(ch) {
            i := i + 1;
          } else if cs.digit(ch) {
            i, state := i + 1, Number;
          } else if cs.letter(ch) || ch == '_' {
            i, state := i + 1, Identifier;
          } else if ch == '\'' || ch == '\"' {
            QuoteStep(line, m, level0, x);
            i, state := i + 1, Str;
          } else if ch == '/' && next == '*' {
            SlashStep(line, m, level0, x);
            i, state := i + 2, Remark;
          } else if ch == '/' && next == '/' {
            SlashStep(line, m, level0, x);
            i := |line|;
          } else if ch == '/' && next != '*' {
            SlashStep(line, m, level0, x);
            i, state := i + 1, Regex;
          } else {
            if ch == '{' || ch == '}' {
              BraceStep(line, m, level0, x);
              braces := braces + [i];
              level := if ch == '{' then level + 1 else level - 1;
            }
            i := i + 1;
          }
        case Number =>
          if cs.space(ch) || !cs.digit(ch) {
            InCodeAgain(line, m, level0, x, start);
            state := Start;
          } else {
            PlainStep(line, m, level0, x, start, Number);
            i := i + 1;
          }
        case Identifier =>
          if cs.space(ch) || !(cs.digit(ch) || cs.letter(ch) || ch == '_') {
            InCodeAgain(line, m, level0, x, start);
            state := Start;
          } else {
            PlainStep(line, m, level0, x, start, Identifier);
            i := i + 1;
          }
        case Str =>
          QuotedStep(line, m, level0, x);
          if ch == line[start] && CharAt(line, i - 1) != '\\' {
            state := Start;
          }
          i := i + 1;
        case Remark =>
          RemarkStep(line, m, level0, x);
          if ch == '*' && next == '/' {
            i, state := i + 2, Start;
          } else {
            i := i + 1;
          }
        case Regex =>
          QuotedStep(line, m, level0, x);
          if ch == '/' && CharAt(line, i - 1) != '\\' {
            state := Start;
          }
          i := i + 1;
      }
    }
    RightEnd(line, m, level0, Lexer(state, start, i, braces, level));
    data := if braces != [] then Some(braces) else kept;
    current := Pack(level, state == Remark);
  }

  // ----- a highlighted document -----

  /** The state stored with the last of the first n lines. */
  function StateAfter(lines: seq<string>, n: nat): int
    requires n <= |lines|
  {
    if n == 0 then -1
    else
      var previous, line := StateAfter(lines, n - 1), lines[n - 1];
      Pack(LevelOf(previous) + Nesting(line, ModeOf(previous), |line|),
           ModeAt(line, ModeOf(previous), |line|) == Comment)
  }

  /** The braces of line i that are read as code. */
  function CodeBraces(lines: seq<string>, i: nat): seq<nat>
    requires i < |lines|
  {
    Collected(lines[i], ModeOf(StateAfter(lines, i)), |lines[i]|)
  }

  /** What a line carries after highlighting that carried `kept` before. */
  function Attached(braces: seq<nat>, kept: Option<seq<nat>>): Option<seq<nat>> {
    if braces == [] then kept else Some(braces)
  }

  function Separator(n: nat): string {
    if n == 0 then "" else "\n"
  }

  /** The first n lines, highlighted one after the other, when line i carried kept[i] before. */
  function Highlighted(lines: seq<string>, kept: seq<Option<seq<nat>>>, n: nat): (doc: Document)
    requires n <= |lines| == |kept|
    ensures |doc.blocks| == n
  {
    if n == 0 then Document("", [])
    else
      var doc := Highlighted(lines, kept, n - 1);
      var before := doc.text + Separator(n - 1);
      Document(before + lines[n - 1],
               doc.blocks + [Block(|before|, Attached(CodeBraces(lines, n - 1), kept[n - 1]))])
  }

  /** A list that brace matching can use for the line: ascending places of braces in it. */
  predicate Usable(line: string, data: Option<seq<nat>>) {
    data.Some? ==>
      Ascending(data.value) && forall c :: c in data.value ==> c < |line| && line[c] in {'{', '}'}
  }

  /** If line i has no braces in code, the list it carried before is usable. */
  predicate KeptUsable(lines: seq<string>, kept: seq<Option<seq<nat>>>, i: nat)
    requires i < |lines| == |kept|
  {
    CodeBraces(lines, i) == [] ==> Usable(lines[i], kept[i])
  }

  lemma CollectedUsable(lines: seq<string>, i: nat)
    requires i < |lines|
    ensures Usable(lines[i], Some(CodeBraces(lines, i)))
  {
    CollectedMeaning(lines[i], ModeOf(StateAfter(lines, i)), |lines[i]|);
  }

  /** A further line changes nothing for the lines before it. */
  lemma LinesKeep(doc: Document, longer: Document, b: nat)
    requires b < |doc.blocks| && End(doc, b) <= |doc.text| + 1
    requires |doc.blocks| < |longer.blocks| && longer.blocks[..|doc.blocks|] == doc.blocks
    requires |doc.text| <= |longer.text| && longer.text[..|doc.text|] == doc.text
    requires longer.blocks[|doc.blocks|].position == |doc.text| + 1
    ensures LineSound(longer, b) <==> LineSound(doc, b)
  {
    var block := doc.blocks[b];
    assert longer.blocks[b] == longer.blocks[..|doc.blocks|][b] == block;
    assert End(longer, b) == End(doc, b) by {
      if b + 1 < |doc.blocks| {
        assert longer.blocks[b + 1] == longer.blocks[..|doc.blocks|][b + 1];
      }
    }
    forall c | c in Braces(block) && block.position + c + 1 < End(doc, b)
      ensures longer.text[block.position + c] == doc.text[block.position + c]
    {
      assert longer.text[..|doc.text|][block.position + c] == longer.text[block.position + c];
    }
  }

  lemma LastLineIff(doc: Document, line: string, before: string)
    requires |doc.blocks| > 0 && doc.text == before + line
    requires doc.blocks[|doc.blocks| - 1].position == |before|
    ensures LineSound(doc, |doc.blocks| - 1) <==> Usable(line, doc.blocks[|doc.blocks| - 1].data)
  {
    var block := doc.blocks[|doc.blocks| - 1];
    forall c | c in Braces(block) && c < |line| ensures doc.text[|before| + c] == line[c] {
    }
    assert block.data.None? ==> Braces(block) == [];
  }

  /** The lines cover the text in order, whatever their lists are. */
  ghost predicate Ordered(doc: Document) {
    && |doc.blocks| > 0 && doc.blocks[0].position == 0
    && (forall a, b :: 0 <= a < b < |doc.blocks| ==> doc.blocks[a].position < doc.blocks[b].position)
    && (forall b :: 0 <= b < |doc.blocks| ==> doc.blocks[b].position <= |doc.text|)
  }

  lemma SoundIff(doc: Document)
    requires Ordered(doc)
    ensures Sound(doc) <==> forall b :: 0 <= b < |doc.blocks| ==> LineSound(doc, b)
  {
    hide LineSound;
  }

  lemma {:induction false} HighlightedOrdered(lines: seq<string>, kept: seq<Option<seq<nat>>>, n: nat)
    requires 0 < n <= |lines| == |kept|
    ensures Ordered(Highlighted(lines, kept, n))
  {
    hide CodeBraces, Attached;
    if n > 1 {
      HighlightedOrdered(lines, kept, n - 1);
    }
  }

  /** Line i of a highlighted document is sound exactly if its braces were collected anew or what it
      kept is usable. */
  lemma {:induction false} LineIff(lines: seq<string>, kept: seq<Option<seq<nat>>>, n: nat, i: nat)
    requires i < n <= |lines| == |kept|
    ensures LineSound(Highlighted(lines, kept, n), i) <==> KeptUsable(lines, kept, i)
  {
    hide LineSound, CodeBraces, Usable;
    var longer, doc := Highlighted(lines, kept, n), Highlighted(lines, kept, n - 1);
    if i < n - 1 {
      LineIff(lines, kept, n - 1, i);
      HighlightedOrdered(lines, kept, n - 1);
      assert longer.blocks[..|doc.blocks|] == doc.blocks;
      assert longer.text[..|doc.text|] == doc.text;
      LinesKeep(doc, longer, i);
    } else {
      LastLineIff(longer, lines[i], doc.text + Separator(i));
      CollectedUsable(lines, i);
    }
  }

  /** The lists of a highlighted document are sound if and only if every line without braces in code
      carried no list before or one that is still usable; then the two searches for matching braces
      scan the text and undo each other. */
  lemma HighlightedSoundIff(lines: seq<string>, kept: seq<Option<seq<nat>>>)
    requires 0 < |lines| == |kept|
    ensures Sound(Highlighted(lines, kept, |lines|))
      <==> forall i :: 0 <= i < |lines| ==> KeptUsable(lines, kept, i)
  {
    hide LineSound, KeptUsable, Sound, Highlighted;
    var doc := Highlighted(lines, kept, |lines|);
    HighlightedOrdered(lines, kept, |lines|);
    SoundIff(doc);
    forall i | 0 <= i < |lines| ensures LineSound(doc, i) <==> KeptUsable(lines, kept, i) {
      hide *;
      LineIff(lines, kept, |lines|, i);
    }
    AllLinesIff(doc, lines, kept);
  }

  lemma AllLinesIff(doc: Document, lines: seq<string>, kept: seq<Option<seq<nat>>>)
    requires |doc.blocks| == |lines| == |kept|
    requires forall i :: 0 <= i < |lines| ==> (LineSound(doc, i) <==> KeptUsable(lines, kept, i))
    ensures (forall i :: 0 <= i < |lines| ==> LineSound(doc, i))
      <==> forall i :: 0 <= i < |lines| ==> KeptUsable(lines, kept, i)
  {
    hide *;
  }

  /** The places marked in a highlighted document are exactly its braces in code if and only if no
      line without braces in code kept a brace. */
  lemma {:induction false} UpToDateIff(lines: seq<string>, kept: seq<Option<seq<nat>>>, n: nat)
    requires n <= |lines| == |kept|
    ensures (forall i :: 0 <= i < n ==> Braces(Highlighted(lines, kept, n).blocks[i]) == CodeBraces(lines, i))
      <==> forall i :: 0 <= i < n && CodeBraces(lines, i) == [] ==> kept[i] in {None, Some([])}
  {
    hide CodeBraces;
    if n > 0 {
      UpToDateIff(lines, kept, n - 1);
      var longer, doc := Highlighted(lines, kept, n), Highlighted(lines, kept, n - 1);
      assert forall i :: 0 <= i < n - 1 ==> longer.blocks[i] == doc.blocks[i];
      assert longer.blocks[n - 1].data == Attached(CodeBraces(lines, n - 1), kept[n - 1]);
      assert Braces(longer.blocks[n - 1]) == CodeBraces(lines, n - 1) <==>
        (CodeBraces(lines, n - 1) == [] ==> kept[n - 1] in {None, Some([])});
    }
  }

  // ----- lines that go wrong -----

  const CLOSE_AND_COMMENT: string := "}/*"

  /** The line leaves a comment open and one brace too many closed: the next line does not know of
      the comment. */
  lemma ForgottenComment()
    ensures ModeAt(CLOSE_AND_COMMENT, Code, 3) == Comment && Nesting(CLOSE_AND_COMMENT, Code, 3) == -1
    ensures ModeOf(Pack(-1, true)) == Code
  {
    var line := CLOSE_AND_COMMENT;
    OneStep(line, Code, 0);
    OneStep(line, Code, 1);
    OneStep(line, Code, 2);
    Nothing(line, Code);
    GatherStep(line, Code, 0, [], 0, 0);
    GatherStep(line, Code, 1, [0], -1, 0);
    GatherStep(line, Code, 2, [0], -1, 0);
    hide ModeAt, Nesting, Collected;
  }

  /** A line that has lost its only brace keeps a list with a place outside its text. */
  lemma StaleList()
    ensures var lines, kept := [""], [Some([0])];
      CodeBraces(lines, 0) == [] && !Sound(Highlighted(lines, kept, 1))
  {
    var lines: seq<string>, kept: seq<Option<seq<nat>>> := [""], [Some([0])];
    HighlightedSoundIff(lines, kept);
    assert !KeptUsable(lines, kept, 0) by {
      assert Braces(Block(0, kept[0])) == [0] && 0 in kept[0].value;
    }
  }

  // ----- the nesting -----

  /** The places among the first n characters of the brace c in code. */
  function BracesOf(line: string, m: Mode, n: nat, c: char): set<nat> {
    set k | 0 <= k < n && IsBrace(line, m, k) && CharAt(line, k) == c
  }

  lemma BracesNext(line: string, m: Mode, k: nat, c: char)
    ensures |BracesOf(line, m, k + 1, c)|
      == |BracesOf(line, m, k, c)| + if IsBrace(line, m, k) && CharAt(line, k) == c then 1 else 0
  {
    hide IsBrace, CharAt;
    var more := if IsBrace(line, m, k) && CharAt(line, k) == c then {k} else {};
    assert BracesOf(line, m, k + 1, c) == BracesOf(line, m, k, c) + more;
  }

  lemma NestingNext(line: string, m: Mode, k: nat)
    ensures Nesting(line, m, k + 1) == Nesting(line, m, k) +
      if !IsBrace(line, m, k) then 0 else if CharAt(line, k) == '{' then 1 else -1
    ensures IsBrace(line, m, k) ==> CharAt(line, k) in {'{', '}'}
    ensures Nesting(line, m, 0) == 0
  {
    hide ModeAt;
  }

  /** The nesting is the number of opening less that of closing braces in code. */
  lemma {:induction false} NestingIs(line: string, m: Mode, n: nat)
    ensures Nesting(line, m, n) == |BracesOf(line, m, n, '{')| - |BracesOf(line, m, n, '}')|
  {
    if n > 0 {
      hide *;
      NestingIs(line, m, n - 1);
      NestingNext(line, m, n - 1);
      BracesNext(line, m, n - 1, '{');
      BracesNext(line, m, n - 1, '}');
    } else {
      assert BracesOf(line, m, n, '{') == {} && BracesOf(line, m, n, '}') == {};
    }
  }
}
