/**
 The ReAct text protocol of the controller: recognising the `Answer:`
 marker, extracting the final answer, and detecting
 `Action: tool({...})` in one model response.
 */
module Protocol {

  import opened Wrappers
  import opened Text
  import opened Values
  import opened Pattern

  // The patterns are written as concatenations rather than single displays,
  // which keeps the verifier from unfolding every match against them eagerly.

  /** `\bAnswer\s*:` under IGNORECASE. */
  const AnswerPattern: Pat := [Boundary] + [Keyword("answer"), Star(Space), Lit(':')]

  /** `Action\s*:\s*(\w+)\s*\(\s*(\{[^}]+\})\s*\)` under IGNORECASE. Group 1
      (the tool name) is the text of element 4; group 2 (the argument object)
      runs from the end of element 7 to the end of element 10. */
  const ActionPattern: Pat :=
    [Keyword("action")] + [Star(Space), Lit(':'), Star(Space), Plus(Word), Star(Space), Lit('('),
     Star(Space), Lit('{'), Plus(NotRightBrace), Lit('}'), Star(Space), Lit(')')]

  lemma AnswerPatternDeterministic()
    ensures Deterministic(AnswerPattern)
  {
    var p := AnswerPattern;
    assert Deterministic(p[3..]);
    assert p[2..][1..] == p[3..];
    assert Deterministic(p[2..]);
    assert p[1..][1..] == p[2..];
    assert Deterministic(p[1..]);
    assert p[0..][1..] == p[1..];
  }

  lemma ActionPatternDeterministic()
    ensures Deterministic(ActionPattern)
  {
    var p := ActionPattern;
    ActionMiddleDeterministic();
    assert p[3..][1..] == p[4..];
    assert Deterministic(p[3..]);
    assert p[2..][1..] == p[3..];
    assert Deterministic(p[2..]);
    assert p[1..][1..] == p[2..];
    assert Deterministic(p[1..]);
    assert p[0..][1..] == p[1..];
  }

  lemma ActionMiddleDeterministic()
    ensures Deterministic(ActionPattern[4..])
  {
    var p := ActionPattern;
    ActionTailDeterministic();
    assert p[7..][1..] == p[8..];
    assert Deterministic(p[7..]);
    assert p[6..][1..] == p[7..];
    assert Deterministic(p[6..]);
    assert p[5..][1..] == p[6..];
    assert Deterministic(p[5..]);
    assert p[4..][1..] == p[5..];
  }

  lemma ActionTailDeterministic()
    ensures Deterministic(ActionPattern[8..])
  {
    var p := ActionPattern;
    assert Deterministic(p[12..]);
    assert p[11..][1..] == p[12..];
    assert Deterministic(p[11..]);
    assert p[10..][1..] == p[11..];
    assert Deterministic(p[10..]);
    assert p[9..][1..] == p[10..];
    assert Deterministic(p[9..]);
    assert p[8..][1..] == p[9..];
  }

  /** `SearchExact` for the action pattern. */
  lemma SearchActionExact(t: string)
    ensures Search(t, ActionPattern, 0).Some? ==>
              IsFirstMatch(t, ActionPattern, Search(t, ActionPattern, 0).value.0, Search(t, ActionPattern, 0).value.1)
    ensures Search(t, ActionPattern, 0).None? <==> forall i, ends :: 0 <= i <= |t| ==> !IsMatch(t, ActionPattern, i, ends)
  {
    ActionPatternDeterministic();
    SearchExact(t, ActionPattern);
  }

  /** `SearchExact` for the answer pattern. */
  lemma SearchAnswerExact(t: string)
    ensures Search(t, AnswerPattern, 0).Some? ==>
              IsFirstMatch(t, AnswerPattern, Search(t, AnswerPattern, 0).value.0, Search(t, AnswerPattern, 0).value.1)
    ensures Search(t, AnswerPattern, 0).None? <==> forall i, ends :: 0 <= i <= |t| ==> !IsMatch(t, AnswerPattern, i, ends)
  {
    AnswerPatternDeterministic();
    SearchExact(t, AnswerPattern);
  }

  // ---------------------------------------------------------------------
  // Answer
  // ---------------------------------------------------------------------

  /** The answer marker, written out: the word `answer` in any ASCII case at
      `i`, not preceded by a word character, then whitespace up to a colon
      at `colon`. */
  ghost predicate IsAnswerMarker(t: string, i: int, colon: int) {
    && MatchesWordAt(t, i, "answer")
    && (i == 0 || !IsWordChar(t[i - 1]))
    && i + 6 <= colon < |t|
    && AllIn(t, i + 6, colon, Space)
    && t[colon] == ':'
  }

  /** The pattern matches at `i` exactly where the marker, as written out,
      starts at `i`; the match's last element ends just after the colon. */
  lemma AnswerMatchIsMarker(t: string, i: int, ends: seq<int>)
    ensures IsMatch(t, AnswerPattern, i, ends) ==> IsAnswerMarker(t, i, ends[3] - 1)
    ensures (exists colon :: IsAnswerMarker(t, i, colon) && ends == [i, i + 6, colon, colon + 1])
            ==> IsMatch(t, AnswerPattern, i, ends)
  {
    var p := AnswerPattern;
    if IsMatch(t, p, i, ends) {
      MatchElem(t, p, i, ends, 0);
      MatchElem(t, p, i, ends, 1);
      MatchElem(t, p, i, ends, 2);
      MatchElem(t, p, i, ends, 3);
      assert Lower(t[i + 0]) == "answer"[0];
      assert IsWordChar(t[i]);
    }
    if exists colon :: IsAnswerMarker(t, i, colon) && ends == [i, i + 6, colon, colon + 1] {
      var colon :| IsAnswerMarker(t, i, colon) && ends == [i, i + 6, colon, colon + 1];
      assert Lower(t[i + 0]) == "answer"[0];
      assert IsWordChar(t[i]);
      assert p[1..][1..] == p[2..] && p[2..][1..] == p[3..] && p[3..][1..] == [];
      assert ends[1..][1..][1..] == [colon + 1];
      assert IsMatch(t, p[3..], colon, [colon + 1]);
      assert IsMatch(t, p[2..], i + 6, [colon, colon + 1]);
      assert IsMatch(t, p[1..], i, [i + 6, colon, colon + 1]);
    }
  }

  /** `_has_final_answer`: the search for the marker succeeds. */
  function HasFinalAnswer(t: string): bool {
    Search(t, AnswerPattern, 0).Some?
  }

  /** The search succeeds exactly when the marker occurs somewhere in the text. */
  lemma HasFinalAnswerMatches(t: string)
    ensures HasFinalAnswer(t) <==> exists i, ends :: 0 <= i <= |t| && IsMatch(t, AnswerPattern, i, ends)
  {
    SearchAnswerExact(t);
  }

  /** The same fact stated with the marker written out. */
  lemma HasFinalAnswerIff(t: string)
    ensures HasFinalAnswer(t) <==> exists i, colon :: IsAnswerMarker(t, i, colon)
  {
    HasFinalAnswerMatches(t);
    if HasFinalAnswer(t) {
      var i, ends :| 0 <= i <= |t| && IsMatch(t, AnswerPattern, i, ends);
      AnswerMatchIsMarker(t, i, ends);
      assert IsAnswerMarker(t, i, ends[3] - 1);
    }
    if exists i, colon :: IsAnswerMarker(t, i, colon) {
      var i, colon :| IsAnswerMarker(t, i, colon);
      var ends := [i, i + 6, colon, colon + 1];
      AnswerMatchIsMarker(t, i, ends);
      assert 0 <= i <= |t| && IsMatch(t, AnswerPattern, i, ends);
      assert exists i', ends' :: 0 <= i' <= |t| && IsMatch(t, AnswerPattern, i', ends');
      assert HasFinalAnswer(t);
    }
  }

  /** The text after the colon of the leftmost answer marker. */
  function AnswerRemainder(t: string): (r: Option<string>)
    ensures r.Some? <==> HasFinalAnswer(t)
    ensures r.Some? ==> |r.value| < |t| && r.value == t[|t| - |r.value|..]
  {
    SearchAnswerExact(t);
    match Search(t, AnswerPattern, 0)
    case None => None
    case Some((i, ends)) =>
      MatchOrdered(t, AnswerPattern, i, ends);
      Some(t[ends[3]..])
  }

  /** The remainder starts right after the colon of the leftmost marker. */
  lemma AnswerRemainderAfterFirstMarker(t: string)
    requires HasFinalAnswer(t)
    ensures exists i, ends :: && IsFirstMatch(t, AnswerPattern, i, ends)
                              && Ordered(i, ends, |t|) && |ends| == 4
                              && AnswerRemainder(t).value == t[ends[3]..]
  {
    SearchAnswerExact(t);
    var (i, ends) := Search(t, AnswerPattern, 0).value;
    MatchOrdered(t, AnswerPattern, i, ends);
    assert IsFirstMatch(t, AnswerPattern, i, ends);
  }

  /** What `_extract_answer` makes of the remainder after the marker:
      stripped of surrounding whitespace and cut at the first paragraph
      break. The result is a piece of the remainder, holds no paragraph break,
      does not start with whitespace, and is empty exactly when the
      remainder is all whitespace. */
  function AnswerText(rem: string): (r: string)
    ensures r <= Strip(rem)
    ensures r == Strip(rem) || BlankLineAt(Strip(rem), |r|)
    ensures forall i :: 0 <= i < |r| ==> !BlankLineAt(Strip(rem), i)
    ensures !HasBlankLine(r)
    ensures r != [] ==> !IsSpace(r[0])
    ensures r != [] <==> !AllIn(rem, 0, |rem|, Space)
    ensures exists a :: OccursAt(r, rem, a)
  {
    var s := Strip(rem);
    var r := FirstParagraph(s);
    ghost var a: nat :| StrippedAt(rem, s, a);
    assert OccursAt(r, rem, a);
    r
  }

  /** `_extract_answer`. With DOTALL the group `(.*)` after `\s*` takes the
      whole remainder less its leading whitespace, which `strip()` removes
      anyway. Without a marker the text comes back unchanged. */
  function ExtractAnswer(t: string): (r: string)
    ensures !HasFinalAnswer(t) ==> r == t
    ensures HasFinalAnswer(t) ==> r == AnswerText(AnswerRemainder(t).value)
  {
    match AnswerRemainder(t)
    case None => t
    case Some(rem) => AnswerText(rem)
  }

  /** The extracted answer is a piece of the text it came from. */
  lemma ExtractAnswerOccurs(t: string)
    ensures IsSubstring(ExtractAnswer(t), t)
  {
    if HasFinalAnswer(t) {
      var rem := AnswerRemainder(t).value;
      SuffixOccurs(t, rem, AnswerText(rem));
    } else {
      assert OccursAt(t, t, 0);
    }
  }

  /** On text without a marker, extraction changes nothing, so applying it
      again changes nothing either. */
  lemma ExtractIdempotentWithoutMarker(t: string)
    requires !HasFinalAnswer(t)
    ensures ExtractAnswer(ExtractAnswer(t)) == ExtractAnswer(t) == t
  {
  }

  // ---------------------------------------------------------------------
  // Action
  // ---------------------------------------------------------------------

  /** What the controller acts on: the tool name, the decoded arguments and
      the matched text. */
  datatype Action = Action(name: string, args: Args, raw: string)

  /** `json.loads` on the argument object; a decode error gives the empty
      dictionary. */
  function ArgsOrEmpty(parse: string -> Option<Args>, body: string): Args {
    match parse(body)
    case Some(args) => args
    case None => []
  }

  /** The action `_detect_action` builds from a match with element ends `ends`. */
  function ActionOf(t: string, i: nat, ends: seq<int>, parse: string -> Option<Args>): Action
    requires |ends| == |ActionPattern| && Ordered(i, ends, |t|)
  {
    Action(t[ends[3]..ends[4]], ArgsOrEmpty(parse, t[ends[7]..ends[10]]), t[i..ends[12]])
  }

  /** A tool name as the pattern admits it: a non-empty run of word characters. */
  predicate IsToolName(s: string) {
    |s| > 0 && forall k :: 0 <= k < |s| ==> IsWordChar(s[k])
  }

  /** A detected action names a tool, and its raw text starts with the
      keyword and ends with the closing parenthesis. */
  predicate WellShaped(a: Action) {
    && IsToolName(a.name)
    && MatchesWordAt(a.raw, 0, "action")
    && a.raw[|a.raw| - 1] == ')'
  }

  /** `_detect_action`: the leftmost match of the action pattern, if any.
      A detected action names a non-empty run of word characters, and its
      raw text starts with the keyword and ends with the closing parenthesis. */
  function DetectAction(t: string, parse: string -> Option<Args>): (r: Option<Action>)
    ensures r.Some? ==> WellShaped(r.value)
  {
    SearchActionExact(t);
    match Search(t, ActionPattern, 0)
    case None => None
    case Some((i, ends)) =>
      ActionMatchShape(t, ActionPattern, i, ends, parse);
      Some(ActionOf(t, i, ends, parse))
  }

  /** No action is detected exactly when the pattern matches nowhere. */
  lemma DetectActionNone(t: string, parse: string -> Option<Args>)
    ensures DetectAction(t, parse).None? <==> forall i, ends :: 0 <= i <= |t| ==> !IsMatch(t, ActionPattern, i, ends)
  {
    SearchActionExact(t);
  }

  /** What any match of a pattern shaped like the action pattern spells out:
      its ends are ordered, element 4 covers a tool name, and the matched
      text starts with the keyword and ends with the closing parenthesis. */
  lemma ActionMatchShape(t: string, pat: Pat, i: nat, ends: seq<int>, parse: string -> Option<Args>)
    requires IsMatch(t, pat, i, ends) && i <= |t|
    requires |pat| == 13 && pat[0] == Keyword("action") && pat[4] == Plus(Word) && pat[12] == Lit(')')
    ensures |ends| == 13 && Ordered(i, ends, |t|)
    ensures WellShaped(ActionOf(t, i, ends, parse))
  {
    MatchOrdered(t, pat, i, ends);
    MatchElem(t, pat, i, ends, 0);
    MatchElem(t, pat, i, ends, 4);
    MatchElem(t, pat, i, ends, 12);
    NameShape(t, ends[3], ends[4]);
    RawShape(t, i, ends[12]);
  }

  lemma NameShape(t: string, a: nat, b: nat)
    requires a < b <= |t| && AllIn(t, a, b, Word)
    ensures IsToolName(t[a..b])
  {
    assert forall k :: 0 <= k < b - a ==> t[a..b][k] == t[a + k];
  }

  lemma RawShape(t: string, i: nat, e: nat)
    requires i + 6 < e <= |t| && MatchesWordAt(t, i, "action") && t[e - 1] == ')'
    ensures MatchesWordAt(t[i..e], 0, "action") && t[i..e][e - i - 1] == ')'
  {
    assert forall m :: 0 <= m < 6 ==> t[i..e][m] == t[i + m];
  }

  /** The detected action is the one the leftmost match of the pattern
      spells out: the name is group 1, the arguments decode group 2 (or are
      empty when it does not decode), and the raw text is the whole match. */
  lemma DetectActionIsFirstMatch(t: string, parse: string -> Option<Args>)
    requires DetectAction(t, parse).Some?
    ensures exists i: nat, ends :: && IsFirstMatch(t, ActionPattern, i, ends)
                                   && |ends| == |ActionPattern| && Ordered(i, ends, |t|)
                                   && DetectAction(t, parse).value == ActionOf(t, i, ends, parse)
  {
    SearchActionExact(t);
    var (i, ends) := Search(t, ActionPattern, 0).value;
    MatchOrdered(t, ActionPattern, i, ends);
    assert IsFirstMatch(t, ActionPattern, i, ends);
  }

  /** Without a closing brace anywhere there is no action: the argument
      object must be closed by `}` before the `)`, so
      `Action: foo({invalid json` names none. */
  lemma NoBraceNoAction(t: string, parse: string -> Option<Args>)
    requires '}' !in t
    ensures DetectAction(t, parse).None?
  {
    DetectActionNone(t, parse);
    var p := ActionPattern;
    assert p[10] == Lit('}');
    forall i, ends | 0 <= i <= |t| ensures !IsMatch(t, p, i, ends) {
      if IsMatch(t, p, i, ends) {
        MatchElem(t, p, i, ends, 10);
        assert false;
      }
    }
  }

  lemma UnclosedArgumentsExample(parse: string -> Option<Args>)
    ensures DetectAction("Action: foo({invalid json", parse).None?
  {
    NoBraceNoAction("Action: foo({invalid json", parse);
  }

  /** `Answer:` preceded by a space is a marker, whatever surrounds it. */
  lemma SpacedMarker(pre: string, post: string)
    ensures HasFinalAnswer(pre + " Answer:" + post)
  {
    var t := pre + " Answer:" + post;
    var i := |pre| + 1;
    assert t[|pre|..|pre| + 8] == " Answer:";
    assert forall k :: 0 <= k < 8 ==> t[|pre| + k] == " Answer:"[k];
    assert MatchesWordAt(t, i, "answer");
    assert IsAnswerMarker(t, i, i + 6);
    HasFinalAnswerIff(t);
  }

  /** `Final Answer:` carries the marker: `Answer` follows a space. */
  lemma FinalAnswerExample()
    ensures HasFinalAnswer("Final Answer: 42")
  {
    SpacedMarker("Final", " 42");
    assert "Final" + " Answer:" + " 42" == "Final Answer: 42";
  }

  /** `FinalAnswer:` does not: `Answer` follows a word character. */
  lemma FinalAnswerGluedExample()
    ensures !HasFinalAnswer("FinalAnswer:")
  {
    var t := "FinalAnswer:";
    HasFinalAnswerIff(t);
    forall i, colon ensures !IsAnswerMarker(t, i, colon) {
      if 0 <= i && i + 6 <= |t| && MatchesWordAt(t, i, "answer") {
        LowerPreimage(t[i], "answer"[0]);
        if i == 5 {
          assert IsWordChar(t[4]);
        } else {
          assert i == 3;
          LowerPreimage(t[i + 1], "answer"[1]);
        }
      }
    }
  }
}
