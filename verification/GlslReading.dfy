/** How GLSL itself reads a line: it has comments, but neither strings nor the quotations between
    slashes that the highlighter of gui/glsledit.cpp knows.  When the highlighter reads it the same. */
module GlslReading {
  import opened Brackets
  import opened Highlighter

  /** Like Next, by the comments of GLSL alone. */
  function NextGlsl(m: Mode, ch: char, next: char): Mode {
    match m
    case Code =>
      if ch == '/' && next == '*' then Opened
      else if ch == '/' && next == '/' then LineComment
      else Code
    case LineComment => LineComment
    case Comment => if ch == '*' && next == '/' then Closed else Comment
    case Quoted(_) => m
    case Opened => Comment
    case Closed => Code
  }

  function GlslAt(line: string, m: Mode, k: nat): Mode {
    if k == 0 then m else NextGlsl(GlslAt(line, m, k - 1), CharAt(line, k - 1), CharAt(line, k))
  }

  /** The braces of GLSL code among the first n characters. */
  function GlslBraces(line: string, m: Mode, n: nat): seq<nat> {
    if n == 0 then []
    else
      GlslBraces(line, m, n - 1)
      + if n - 1 < |line| && line[n - 1] in {'{', '}'} && GlslAt(line, m, n - 1) == Code then [n - 1] else []
  }

  /** Character k stands in GLSL code and is a quote, or a slash that starts no comment. */
  predicate Stray(line: string, m: Mode, k: nat) {
    && k < |line| && GlslAt(line, m, k) == Code
    && (line[k] in {'\'', '\"'} || (line[k] == '/' && CharAt(line, k + 1) !in {'/', '*'}))
  }

  lemma SameStep(line: string, m: Mode, k: nat)
    requires k < |line| && ModeAt(line, m, k) == GlslAt(line, m, k) && !GlslAt(line, m, k).Quoted?
    ensures ModeAt(line, m, k + 1) == GlslAt(line, m, k + 1) <==> !Stray(line, m, k)
  {
    OneStep(line, m, k);
  }

  lemma {:induction false} NeverQuoted(line: string, m: Mode, k: nat)
    requires !m.Quoted?
    ensures !GlslAt(line, m, k).Quoted?
  {
    if k > 0 {
      NeverQuoted(line, m, k - 1);
    }
  }

  lemma {:induction false} SameUpTo(line: string, m: Mode, k: nat)
    requires !m.Quoted? && k <= |line|
    requires forall j :: 0 <= j < k ==> !Stray(line, m, j)
    ensures ModeAt(line, m, k) == GlslAt(line, m, k)
  {
    if k > 0 {
      SameUpTo(line, m, k - 1);
      NeverQuoted(line, m, k - 1);
      SameStep(line, m, k - 1);
    }
  }

  /** Character k is read as GLSL reads it. */
  predicate SameAt(line: string, m: Mode, k: nat) { ModeAt(line, m, k) == GlslAt(line, m, k) }

  lemma StepIff(line: string, m: Mode, k: nat)
    requires !m.Quoted? && k < |line| && SameAt(line, m, k)
    ensures SameAt(line, m, k + 1) <==> !Stray(line, m, k)
  {
    NeverQuoted(line, m, k);
    SameStep(line, m, k);
  }

  /** The highlighter reads a line as GLSL does, from each character up to the state for the next line,
      if and only if no quote and no slash other than those of comments stands in its code. */
  lemma ReadAsGlslIff(line: string, m: Mode)
    requires !m.Quoted?
    ensures (forall k :: 0 <= k <= |line| ==> SameAt(line, m, k))
      <==> forall k :: 0 <= k < |line| ==> !Stray(line, m, k)
  {
    if forall k :: 0 <= k < |line| ==> !Stray(line, m, k) {
      forall k | 0 <= k <= |line| ensures SameAt(line, m, k) {
        SameUpTo(line, m, k);
      }
    }
    hide SameAt, Stray;
    if forall k :: 0 <= k <= |line| ==> SameAt(line, m, k) {
      forall k | 0 <= k < |line| ensures !Stray(line, m, k) {
        assert SameAt(line, m, k) && SameAt(line, m, k + 1);
        StepIff(line, m, k);
      }
    }
  }

  /** Then the list that it collects is that of the braces of GLSL code. */
  lemma {:induction false} SameBraces(line: string, m: Mode, n: nat)
    requires !m.Quoted? && n <= |line|
    requires forall k :: 0 <= k < n ==> !Stray(line, m, k)
    ensures Collected(line, m, n) == GlslBraces(line, m, n)
  {
    if n > 0 {
      SameBraces(line, m, n - 1);
      SameUpTo(line, m, n - 1);
      hide ModeAt, GlslAt, Stray;
      var last := n - 1;
      assert IsBrace(line, m, last) <==> line[last] in {'{', '}'} && GlslAt(line, m, last) == Code;
      assert Collected(line, m, n) == Collected(line, m, last) + if IsBrace(line, m, last) then [last] else [];
      assert GlslBraces(line, m, n) == GlslBraces(line, m, last) + if IsBrace(line, m, last) then [last] else [];
    }
  }

  const DIVISION: string := "a/b{"

  /** The brace behind a division is not listed. */
  lemma BraceBehindDivision()
    ensures Stray(DIVISION, Code, 1)
    ensures Collected(DIVISION, Code, 4) == [] && GlslBraces(DIVISION, Code, 4) == [3]
  {
    var line := DIVISION;
    OneStep(line, Code, 0);
    OneStep(line, Code, 1);
    OneStep(line, Code, 2);
    Nothing(line, Code);
    GatherStep(line, Code, 0, [], 0, 0);
    GatherStep(line, Code, 1, [], 0, 0);
    GatherStep(line, Code, 2, [], 0, 0);
    GatherStep(line, Code, 3, [], 0, 0);
    assert GlslAt(line, Code, 1) == Code && GlslAt(line, Code, 2) == Code && GlslAt(line, Code, 3) == Code;
    hide ModeAt, Nesting, Collected;
  }
}
