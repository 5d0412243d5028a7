/**
 The ReAct controller's run: ask the model, stop at a final answer, run the
 tool an action names and feed the observation back, and when the turns
 run out either force a conclusion or apologise.
 */
module Controller {

  import opened Wrappers
  import opened Text
  import opened Values
  import opened Protocol
  import opened Tools
  import opened Dispatch

  datatype Role = System | User | Assistant

  datatype Message = Message(role: Role, content: string)

  datatype StopReason = AnswerFound | MaxTurnsReached | MaxTurnsExceeded

  /** One entry of `actions_taken`. */
  datatype ActionRecord = ActionRecord(turn: nat, tool: string, args: Args, result: ToolResult)

  datatype Metadata = Metadata(turns: nat, actions: seq<ActionRecord>, stopped: StopReason)

  /** What the controller calls out to: the model (a reply for each
      conversation it is shown), `json.loads` on the argument object,
      `json.dumps` on a tool result, and the tools as they behave during a
      given turn. */
  datatype Collaborators = Collaborators(
    llm: seq<Message> -> string,
    parse: string -> Option<Args>,
    dumps: ToolResult -> string,
    tools: nat -> ((Tool, Args) -> Outcome))

  /** The user message that asks for a conclusion on the last turn. */
  const Directive := "Please provide your final Answer to the customer."

  /** The answer when the turns run out after an action. */
  const Apology := "I apologize, but I need more information to help you properly. "
                   + "Could you please rephrase your question?"

  /** `_extract_answer(final) or final`: the extracted answer, unless it is
      empty. The result is empty only when the reply is. */
  function Fallback(fin: string): (r: string)
    ensures ExtractAnswer(fin) != [] ==> r == ExtractAnswer(fin)
    ensures ExtractAnswer(fin) == [] ==> r == fin
    ensures r == [] <==> fin == []
    ensures !HasFinalAnswer(fin) ==> r == fin
  {
    var a := ExtractAnswer(fin);
    ExtractAnswerOccurs(fin);
    if a == [] then fin
    else
      ghost var k :| OccursAt(a, fin, k);
      a
  }

  /** The tool result an action produces on turn `turn`. */
  function Observe(c: Collaborators, turn: nat, a: Action): ToolResult {
    Execute(a.name, a.args, c.tools(turn))
  }

  function ObservationText(c: Collaborators, result: ToolResult): string {
    "Observation: " + c.dumps(result)
  }

  // ---------------------------------------------------------------------
  // The shape of a run
  // ---------------------------------------------------------------------

  /** A turn that does not end the run: the model's reply to `before`,
      which carries no answer marker, followed by the observation of the
      action it names when it names one. Turns are numbered from 1. */
  predicate ContinueRound(c: Collaborators, before: seq<Message>, round: seq<Message>, turn: nat) {
    && 1 <= |round| <= 2
    && round[0] == Message(Assistant, c.llm(before))
    && !HasFinalAnswer(round[0].content)
    && (|round| == 2 <==> DetectAction(round[0].content, c.parse).Some?)
    && (|round| == 2 ==>
          round[1] == Message(User, ObservationText(c, Observe(c, turn, DetectAction(round[0].content, c.parse).value))))
  }

  function Flatten(rs: seq<seq<Message>>): seq<Message> {
    if rs == [] then [] else Flatten(rs[..|rs| - 1]) + rs[|rs| - 1]
  }

  /** `rs` are the first `|rs|` turns of a run started on `start`, none of
      which ended it. */
  predicate Rounds(c: Collaborators, start: seq<Message>, rs: seq<seq<Message>>)
    decreases |rs|
  {
    rs == [] ||
    (&& Rounds(c, start, rs[..|rs| - 1])
     && ContinueRound(c, start + Flatten(rs[..|rs| - 1]), rs[|rs| - 1], |rs|))
  }

  /** The `actions_taken` entry a continuing turn `turn` logs, if any. */
  function RoundActions(c: Collaborators, round: seq<Message>, turn: nat): seq<ActionRecord> {
    if |round| == 2 && DetectAction(round[0].content, c.parse).Some? then
      var a := DetectAction(round[0].content, c.parse).value;
      [ActionRecord(turn, a.name, a.args, Observe(c, turn, a))]
    else []
  }

  /** The `actions_taken` entries those turns log. */
  function Actions(c: Collaborators, rs: seq<seq<Message>>): seq<ActionRecord>
    decreases |rs|
  {
    if rs == [] then [] else Actions(c, rs[..|rs| - 1]) + RoundActions(c, rs[|rs| - 1], |rs|)
  }

  function Max0(n: int): nat {
    if n < 0 then 0 else n
  }

  /** The messages a run appends after its last continuing turn, which
      left the conversation at `mid`: the reply with the marker; or the
      reply without an action, the request for a conclusion and the model's
      reply to it; or nothing when the turns ran out. */
  function Closing(c: Collaborators, mid: seq<Message>, stopped: StopReason): seq<Message> {
    var reply := c.llm(mid);
    match stopped
    case AnswerFound => [Message(Assistant, reply)]
    case MaxTurnsReached =>
      var asked := mid + [Message(Assistant, reply), Message(User, Directive)];
      [Message(Assistant, reply), Message(User, Directive), Message(Assistant, c.llm(asked))]
    case MaxTurnsExceeded => []
  }

  /** Turn `turn`, on the conversation `before`, ends the run with `answer`:
      - AnswerFound: the reply carries the marker, and the answer is
        extracted from it;
      - MaxTurnsReached: it is the last turn and the reply names no action,
        so the controller asks for a conclusion, and the answer comes from
        the model's reply to that. */
  predicate Concludes(c: Collaborators, maxTurns: int, before: seq<Message>, turn: nat, answer: string, stopped: StopReason) {
    var reply := c.llm(before);
    match stopped
    case AnswerFound =>
      && turn <= maxTurns
      && HasFinalAnswer(reply)
      && answer == ExtractAnswer(reply)
    case MaxTurnsReached =>
      && turn == maxTurns
      && !HasFinalAnswer(reply)
      && DetectAction(reply, c.parse).None?
      && answer == Fallback(c.llm(before + [Message(Assistant, reply), Message(User, Directive)]))
    case MaxTurnsExceeded => false
  }

  /** How a run on `messages` with `maxTurns` ends after the continuing
      turns `rs`: either the next turn concludes it, or every turn ran, the
      last one an action (or there were none), and the answer is the apology. */
  predicate Ends(c: Collaborators, maxTurns: int, messages: seq<Message>, rs: seq<seq<Message>>,
                 answer: string, conversation: seq<Message>, meta: Metadata)
  {
    && Rounds(c, messages, rs)
    && meta.actions == Actions(c, rs)
    && conversation == messages + Flatten(rs) + Closing(c, messages + Flatten(rs), meta.stopped)
    && if meta.stopped == MaxTurnsExceeded then
         && |rs| == Max0(maxTurns)
         && meta.turns == |rs|
         && (rs != [] ==> |rs[|rs| - 1]| == 2)
         && answer == Apology
       else
         && meta.turns == |rs| + 1
         && Concludes(c, maxTurns, messages + Flatten(rs), |rs| + 1, answer, meta.stopped)
  }

  // ---------------------------------------------------------------------
  // The run
  // ---------------------------------------------------------------------

  /** What one turn does: the run goes on after `round`, logging `logged`,
      or it stops with `answer`, appending `closing`. */
  datatype TurnResult =
    | Continue(round: seq<Message>, logged: seq<ActionRecord>)
    | Stop(answer: string, closing: seq<Message>, stopped: StopReason)

  /** One pass of the loop body, turn `turn` (counted from 1) on the
      conversation `before`. */
  method Turn(c: Collaborators, maxTurns: int, before: seq<Message>, turn: nat) returns (t: TurnResult)
    requires 1 <= turn <= maxTurns
    ensures t.Continue? ==> && ContinueRound(c, before, t.round, turn)
                            && t.logged == RoundActions(c, t.round, turn)
                            && (turn == maxTurns ==> |t.round| == 2)
    ensures t.Stop? ==> && t.stopped != MaxTurnsExceeded
                        && t.closing == Closing(c, before, t.stopped)
                        && Concludes(c, maxTurns, before, turn, t.answer, t.stopped)
  {
    var reply := c.llm(before);
    var said := Message(Assistant, reply);
    if HasFinalAnswer(reply) {
      return Stop(ExtractAnswer(reply), [said], AnswerFound);
    }
    var detected := DetectAction(reply, c.parse);
    if detected.Some? {
      var a := detected.value;
      var result := Execute(a.name, a.args, c.tools(turn));
      return Continue([said, Message(User, ObservationText(c, result))], [ActionRecord(turn, a.name, a.args, result)]);
    }
    if turn >= maxTurns {
      var asked := before + [said, Message(User, Directive)];
      var fin := c.llm(asked);
      return Stop(Fallback(fin), [said, Message(User, Directive), Message(Assistant, fin)], MaxTurnsReached);
    }
    return Continue([said], []);
  }

  /** A continuing turn extends the run. */
  lemma Extend(c: Collaborators, messages: seq<Message>, rs: seq<seq<Message>>, round: seq<Message>)
    requires Rounds(c, messages, rs)
    requires ContinueRound(c, messages + Flatten(rs), round, |rs| + 1)
    ensures Rounds(c, messages, rs + [round])
    ensures messages + Flatten(rs + [round]) == messages + Flatten(rs) + round
    ensures Actions(c, rs + [round]) == Actions(c, rs) + RoundActions(c, round, |rs| + 1)
  {
    assert (rs + [round])[..|rs|] == rs;
    assert Flatten(rs + [round]) == Flatten(rs) + round;
  }

  /** A turn that stops the run completes its description. */
  lemma EndsAtStop(c: Collaborators, maxTurns: int, messages: seq<Message>, rs: seq<seq<Message>>, t: TurnResult)
    requires Rounds(c, messages, rs)
    requires t.Stop? && t.stopped != MaxTurnsExceeded
    requires t.closing == Closing(c, messages + Flatten(rs), t.stopped)
    requires Concludes(c, maxTurns, messages + Flatten(rs), |rs| + 1, t.answer, t.stopped)
    ensures Ends(c, maxTurns, messages, rs, t.answer, messages + Flatten(rs) + t.closing,
                 Metadata(|rs| + 1, Actions(c, rs), t.stopped))
  {
  }

  /** Running out of turns, the last of them an action, completes the description. */
  lemma EndsOutOfTurns(c: Collaborators, maxTurns: int, messages: seq<Message>, rs: seq<seq<Message>>)
    requires Rounds(c, messages, rs)
    requires |rs| == Max0(maxTurns)
    requires rs != [] ==> |rs[|rs| - 1]| == 2
    ensures Ends(c, maxTurns, messages, rs, Apology, messages + Flatten(rs),
                 Metadata(|rs|, Actions(c, rs), MaxTurnsExceeded))
  {
    assert messages + Flatten(rs) + [] == messages + Flatten(rs);
  }

  /** `ReActController.run`. */
  method Run(c: Collaborators, maxTurns: int, messages: seq<Message>)
    returns (answer: string, conversation: seq<Message>, meta: Metadata)
    ensures exists rs :: Ends(c, maxTurns, messages, rs, answer, conversation, meta)
  {
    conversation := messages;
    var actions: seq<ActionRecord> := [];
    ghost var rs: seq<seq<Message>> := [];
    var turn: nat := 0;
    while turn < maxTurns
      invariant turn == 0 || turn <= maxTurns
      invariant |rs| == turn
      invariant Rounds(c, messages, rs)
      invariant conversation == messages + Flatten(rs)
      invariant actions == Actions(c, rs)
      invariant rs != [] && turn >= maxTurns ==> |rs[|rs| - 1]| == 2
    {
      var t := Turn(c, maxTurns, conversation, turn + 1);
      if t.Stop? {
        EndsAtStop(c, maxTurns, messages, rs, t);
        answer, conversation, meta := t.answer, conversation + t.closing, Metadata(turn + 1, actions, t.stopped);
        assert Ends(c, maxTurns, messages, rs, answer, conversation, meta);
        return;
      }
      Extend(c, messages, rs, t.round);
      rs := rs + [t.round];
      conversation := conversation + t.round;
      actions := actions + t.logged;
      turn := turn + 1;
    }
    EndsOutOfTurns(c, maxTurns, messages, rs);
    answer := Apology;
    meta := Metadata(turn, actions, MaxTurnsExceeded);
    assert Ends(c, maxTurns, messages, rs, answer, conversation, meta);
  }

  // ---------------------------------------------------------------------
  // What every run guarantees
  // ---------------------------------------------------------------------

  /** The number of messages with role `role`. */
  function CountRole(ms: seq<Message>, role: Role): nat {
    if ms == [] then 0 else CountRole(ms[..|ms| - 1], role) + (if ms[|ms| - 1].role == role then 1 else 0)
  }

  lemma {:induction false} CountAppend(a: seq<Message>, b: seq<Message>, role: Role)
    ensures CountRole(a + b, role) == CountRole(a, role) + CountRole(b, role)
    decreases |b|
  {
    if b == [] {
      assert a + b == a;
    } else {
      assert (a + b)[..|a + b| - 1] == a + b[..|b| - 1];
      CountAppend(a, b[..|b| - 1], role);
    }
  }

  /** Counting the roles of a one- or two-message turn. */
  lemma PairCounts(round: seq<Message>, role: Role)
    requires 1 <= |round| <= 2
    ensures CountRole(round, role) == (if round[0].role == role then 1 else 0)
                                      + (if |round| == 2 && round[1].role == role then 1 else 0)
  {
    assert round[..|round| - 1][..0] == [];
    if |round| == 2 {
      assert round[..1] == [round[0]];
    }
  }

  lemma AfterPrefix(a: seq<Message>, b: seq<Message>, c: seq<Message>)
    ensures (a + b + c)[|a|..] == b + c
  {
  }

  /** A continuing turn holds one reply, and one observation exactly when
      it logs an action. */
  lemma RoundCounts(c: Collaborators, before: seq<Message>, round: seq<Message>, turn: nat)
    requires ContinueRound(c, before, round, turn)
    ensures CountRole(round, Assistant) == 1
    ensures CountRole(round, User) == |RoundActions(c, round, turn)|
  {
    PairCounts(round, Assistant);
    PairCounts(round, User);
  }

  /** The continuing turns: one reply each and one observation per logged action. */
  lemma {:induction false} RoundsCounts(c: Collaborators, start: seq<Message>, rs: seq<seq<Message>>)
    requires Rounds(c, start, rs)
    ensures CountRole(Flatten(rs), Assistant) == |rs|
    ensures CountRole(Flatten(rs), User) == |Actions(c, rs)|
    decreases |rs|
  {
    if rs != [] {
      var init := rs[..|rs| - 1];
      var last := rs[|rs| - 1];
      RoundsCounts(c, start, init);
      CountAppend(Flatten(init), last, Assistant);
      CountAppend(Flatten(init), last, User);
      RoundCounts(c, start + Flatten(init), last, |rs|);
    }
  }

  /** No reply among `ms` carries the answer marker. */
  predicate Unmarked(ms: seq<Message>) {
    forall k :: 0 <= k < |ms| && ms[k].role == Assistant ==> !HasFinalAnswer(ms[k].content)
  }

  lemma UnmarkedAppend(a: seq<Message>, b: seq<Message>)
    requires Unmarked(a) && Unmarked(b)
    ensures Unmarked(a + b)
  {
    forall k | 0 <= k < |a + b| && (a + b)[k].role == Assistant
      ensures !HasFinalAnswer((a + b)[k].content)
    {
      if k < |a| {
        assert (a + b)[k] == a[k];
      } else {
        assert (a + b)[k] == b[k - |a|];
      }
    }
  }

  lemma RoundUnmarked(c: Collaborators, before: seq<Message>, round: seq<Message>, turn: nat)
    requires ContinueRound(c, before, round, turn)
    ensures Unmarked(round)
  {
    UnmarkedPair(round);
  }

  lemma UnmarkedPair(round: seq<Message>)
    requires 1 <= |round| <= 2 && !HasFinalAnswer(round[0].content)
    requires |round| == 2 ==> round[1].role == User
    ensures Unmarked(round)
  {
    forall k | 0 <= k < |round| && round[k].role == Assistant
      ensures !HasFinalAnswer(round[k].content)
    {
      assert k == 0;
    }
  }

  /** No reply of a continuing turn carries the answer marker. */
  lemma {:induction false} RoundsUnmarked(c: Collaborators, start: seq<Message>, rs: seq<seq<Message>>)
    requires Rounds(c, start, rs)
    ensures Unmarked(Flatten(rs))
    decreases |rs|
  {
    if rs != [] {
      var init := rs[..|rs| - 1];
      RoundsUnmarked(c, start, init);
      RoundUnmarked(c, start + Flatten(init), rs[|rs| - 1], |rs|);
      UnmarkedAppend(Flatten(init), rs[|rs| - 1]);
    }
  }

  /** A continuing turn logs at most one action, under its own number. */
  lemma RoundActionsTurn(c: Collaborators, round: seq<Message>, turn: nat)
    ensures |RoundActions(c, round, turn)| <= 1
    ensures forall j :: 0 <= j < |RoundActions(c, round, turn)| ==> RoundActions(c, round, turn)[j].turn == turn
  {
  }

  lemma OrderedAppend(a: seq<ActionRecord>, b: seq<ActionRecord>, n: nat)
    requires n >= 1
    requires forall j :: 0 <= j < |a| ==> 1 <= a[j].turn <= n - 1
    requires forall j, j' :: 0 <= j < j' < |a| ==> a[j].turn < a[j'].turn
    requires |b| <= 1 && forall j :: 0 <= j < |b| ==> b[j].turn == n
    ensures forall j :: 0 <= j < |a + b| ==> 1 <= (a + b)[j].turn <= n
    ensures forall j, j' :: 0 <= j < j' < |a + b| ==> (a + b)[j].turn < (a + b)[j'].turn
  {
  }

  /** The actions are logged in turn order, within the turns that ran. */
  lemma {:induction false} ActionsOrdered(c: Collaborators, rs: seq<seq<Message>>)
    ensures forall j :: 0 <= j < |Actions(c, rs)| ==> 1 <= Actions(c, rs)[j].turn <= |rs|
    ensures forall j, j' :: 0 <= j < j' < |Actions(c, rs)| ==> Actions(c, rs)[j].turn < Actions(c, rs)[j'].turn
    decreases |rs|
  {
    if rs != [] {
      var init := Actions(c, rs[..|rs| - 1]);
      var last := RoundActions(c, rs[|rs| - 1], |rs|);
      ActionsOrdered(c, rs[..|rs| - 1]);
      RoundActionsTurn(c, rs[|rs| - 1], |rs|);
      OrderedAppend(init, last, |rs|);
    }
  }

  /** The closing messages: one reply when an answer is found, two replies
      around the request when a conclusion is forced, none otherwise. */
  lemma ClosingCounts(c: Collaborators, mid: seq<Message>, stopped: StopReason)
    ensures var tail := Closing(c, mid, stopped);
            var extra := if stopped == MaxTurnsReached then 1 else 0;
            && CountRole(tail, Assistant) == (if stopped == MaxTurnsExceeded then 0 else 1) + extra
            && CountRole(tail, User) == extra
  {
    var tail := Closing(c, mid, stopped);
    if stopped == MaxTurnsReached {
      assert tail[..|tail| - 1] == tail[..2];
      PairCounts(tail[..2], Assistant);
      PairCounts(tail[..2], User);
    } else if stopped == AnswerFound {
      PairCounts(tail, Assistant);
      PairCounts(tail, User);
    }
  }

  /** A run keeps the caller's messages at the front of the conversation,
      and never takes more turns than the limit (read as 0 when negative);
      running out of turns means all of them ran. */
  lemma RunBounds(c: Collaborators, maxTurns: int, messages: seq<Message>, rs: seq<seq<Message>>,
                  answer: string, conversation: seq<Message>, meta: Metadata)
    requires Ends(c, maxTurns, messages, rs, answer, conversation, meta)
    ensures |messages| <= |conversation| && conversation[..|messages|] == messages
    ensures meta.turns <= Max0(maxTurns)
    ensures meta.stopped == MaxTurnsExceeded ==> meta.turns == Max0(maxTurns)
  {
  }

  /** The model is consulted once per turn, plus once more when asked for a
      conclusion; a user message is added only for an action or that request.
      So the model replies at most `max_turns + 1` times, and never when
      `max_turns` is zero or negative. */
  lemma RunCounts(c: Collaborators, maxTurns: int, messages: seq<Message>, rs: seq<seq<Message>>,
                  answer: string, conversation: seq<Message>, meta: Metadata)
    requires Ends(c, maxTurns, messages, rs, answer, conversation, meta)
    ensures var extra := if meta.stopped == MaxTurnsReached then 1 else 0;
            && CountRole(conversation[|messages|..], Assistant) == meta.turns + extra
            && CountRole(conversation[|messages|..], User) == |meta.actions| + extra
    ensures CountRole(conversation[|messages|..], Assistant) <= Max0(maxTurns) + 1
    ensures maxTurns <= 0 ==> CountRole(conversation[|messages|..], Assistant) == 0
  {
    RunBounds(c, maxTurns, messages, rs, answer, conversation, meta);
    var f := Flatten(rs);
    var tail := Closing(c, messages + f, meta.stopped);
    AfterPrefix(messages, f, tail);
    RoundsCounts(c, messages, rs);
    ClosingCounts(c, messages + f, meta.stopped);
    CountAppend(f, tail, Assistant);
    CountAppend(f, tail, User);
  }

  /** No reply but the very last carries the answer marker; when the run
      stops at the marker, the answer is extracted from that last reply. */
  lemma RunMarker(c: Collaborators, maxTurns: int, messages: seq<Message>, rs: seq<seq<Message>>,
                  answer: string, conversation: seq<Message>, meta: Metadata)
    requires Ends(c, maxTurns, messages, rs, answer, conversation, meta)
    ensures forall k :: |messages| <= k < |conversation| - 1 && conversation[k].role == Assistant ==>
                          !HasFinalAnswer(conversation[k].content)
    ensures meta.stopped == AnswerFound ==>
              && |conversation| > |messages|
              && conversation[|conversation| - 1].role == Assistant
              && HasFinalAnswer(conversation[|conversation| - 1].content)
              && answer == ExtractAnswer(conversation[|conversation| - 1].content)
  {
    var f := Flatten(rs);
    var tail := Closing(c, messages + f, meta.stopped);
    RoundsUnmarked(c, messages, rs);
    ClosingUnmarked(c, messages + f, meta.stopped);
    UnmarkedBeforeLast(messages, f, tail);
    if meta.stopped == AnswerFound {
      assert conversation[|conversation| - 1] == tail[0];
    }
  }

  /** Only the last closing message can be a reply with the marker: the
      reply before a forced conclusion has none. */
  lemma ClosingUnmarked(c: Collaborators, mid: seq<Message>, stopped: StopReason)
    requires stopped == MaxTurnsReached ==> !HasFinalAnswer(c.llm(mid))
    ensures var tail := Closing(c, mid, stopped);
            forall k :: 0 <= k < |tail| - 1 && tail[k].role == Assistant ==> !HasFinalAnswer(tail[k].content)
  {
  }

  lemma UnmarkedBeforeLast(a: seq<Message>, f: seq<Message>, tail: seq<Message>)
    requires Unmarked(f)
    requires forall k :: 0 <= k < |tail| - 1 && tail[k].role == Assistant ==> !HasFinalAnswer(tail[k].content)
    ensures forall k :: |a| <= k < |a + f + tail| - 1 && (a + f + tail)[k].role == Assistant ==>
                          !HasFinalAnswer((a + f + tail)[k].content)
  {
    var s := a + f + tail;
    forall k | |a| <= k < |s| - 1 && s[k].role == Assistant
      ensures !HasFinalAnswer(s[k].content)
    {
      if k < |a| + |f| {
        assert s[k] == f[k - |a|];
      } else {
        assert s[k] == tail[k - |a| - |f|];
      }
    }
  }

  /** The logged actions carry increasing turn numbers within the turns
      taken, and the turn that concludes the run calls no tool: an answer
      takes precedence over an action in the same reply. */
  lemma RunActions(c: Collaborators, maxTurns: int, messages: seq<Message>, rs: seq<seq<Message>>,
                   answer: string, conversation: seq<Message>, meta: Metadata)
    requires Ends(c, maxTurns, messages, rs, answer, conversation, meta)
    ensures forall j :: 0 <= j < |meta.actions| ==> 1 <= meta.actions[j].turn <= meta.turns
    ensures forall j, j' :: 0 <= j < j' < |meta.actions| ==> meta.actions[j].turn < meta.actions[j'].turn
    ensures meta.stopped != MaxTurnsExceeded ==> forall j :: 0 <= j < |meta.actions| ==> meta.actions[j].turn < meta.turns
  {
    ActionsOrdered(c, rs);
  }
}
