# A Dafny model of the bakery agent's ReAct loop

This project models the hand-written ReAct controller of the Fleur de Pain
customer agent and the tool registry it dispatches into. A run goes like this:

- The controller asks the language model for a reply to the conversation so
  far, and appends the reply as an assistant message.
- If the reply carries the answer marker (`Answer:`, in any case, not glued to
  a preceding word), the run stops with the extracted answer (`answer_found`).
- Otherwise, if the reply names an action `Action: tool({...})`, the tool runs
  through `_execute_tool`. The observation `Observation: <json>` is appended
  as a user message, and the action is logged in `actions_taken`.
- If the last permitted turn names no action, the controller asks for a
  conclusion. It takes the extracted answer of that final reply, or the reply
  itself when extraction gives nothing (`max_turns_reached`).
- If every turn ran and the last one was an action, or no turn was permitted,
  the run ends with a fixed apology (`max_turns_exceeded`).

Modules, following the structure of the program:

- `Wrappers`: `Option` and `Result`.
- `Text`: character classes (ASCII), `strip()`, cutting at the first blank
  line, `str.capitalize()`, decimal rendering and f-string formatting.
- `Values`: decoded JSON values and keyword dictionaries in insertion order.
- `Pattern`: a small regular-expression language with the three search
  semantics the controller relies on:
  - `IsMatch`: any way a pattern matches;
  - `Greedy`: the possessive scan;
  - `Search`: leftmost, like `re.search`.

  It also proves that, for patterns whose repeated classes cannot run into
  what follows, the scan finds exactly the leftmost match.
- `Protocol`: the three text functions `_has_final_answer`,
  `_extract_answer` and `_detect_action`.
- `Tools`:
  - the registry;
  - the four tools' keyword signatures;
  - CPython's keyword binding, with its `TypeError` texts;
  - each tool's log line and reply.
- `Dispatch`: `_execute_tool`.
- `Controller`: `ReActController.run` as a loop over turns. Its result is
  described declaratively by the predicate `Ends`, and lemmas derive the
  run's guarantees from that description.

The language model, `json.loads`, `json.dumps` and the tools' behaviour on
each turn are parameters of the run (`Controller.Collaborators`). The model is
a function of the conversation it is shown. Each call sees a strictly longer
conversation, so this covers any sequence of replies. The tools are indexed by
turn, so the same call may fail on one turn and succeed on another. The
environment a tool sees consists of the timestamp and whether the log file
can be opened (`Tools.Env`).

Behaviour of the code worth knowing:

- `Action: foo({invalid json` names no action. The argument group must be
  closed by `}` and then `)` before the arguments are decoded at all. The
  empty-dictionary fallback applies only to a closed object that fails to
  decode.
- Observations are appended with role `user`.
- The unknown-tool message lists only `record_customer_interest` and
  `record_feedback`, although the registry holds four tools.
- On the `answer_found` path the answer may be empty: `Answer:` followed only
  by whitespace.
- The action keyword has no word-boundary check, so `Reaction: foo({...})`
  is detected. The answer marker does have one.

## Model

| member | source | states |
|---|---|---|
| Protocol.HasFinalAnswerIff | react_agent/agent/react_loop.py:103-106 | The marker is found exactly when some position holds `answer` in any ASCII case, not preceded by a word character, followed by optional whitespace and a colon |
| Protocol.HasFinalAnswerMatches | react_agent/agent/react_loop.py:106 | The leftmost search succeeds exactly when the marker pattern matches somewhere in the text |
| Protocol.SpacedMarker | react_agent/agent/react_loop.py:106 | `Answer:` preceded by a space is a final-answer marker, whatever text surrounds it |
| Protocol.FinalAnswerExample | react_agent/agent/react_loop.py:106 | `Final Answer: 42` carries the marker |
| Protocol.FinalAnswerGluedExample | react_agent/agent/react_loop.py:106 | `FinalAnswer:` carries no marker, because `Answer` follows a word character |
| Protocol.AnswerRemainder | react_agent/agent/react_loop.py:111-112 | A remainder exists exactly when the marker is found, and it is a proper suffix of the text |
| Protocol.AnswerRemainderAfterFirstMarker | react_agent/agent/react_loop.py:111 | The remainder starts right after the colon of the leftmost marker match |
| Protocol.AnswerText | react_agent/agent/react_loop.py:113-115 | The answer is the prefix of the stripped remainder that ends at its first blank line: no blank line of the stripped remainder starts inside it, and it is all of it or followed by a blank line. It has no leading whitespace, occurs in the remainder, and is non-empty exactly when the remainder has a non-whitespace character |
| Protocol.ExtractAnswer | react_agent/agent/react_loop.py:108-117 | Without a marker the text comes back unchanged; with one, the answer is cut from the remainder after the first marker |
| Protocol.ExtractAnswerOccurs | react_agent/agent/react_loop.py:111-116 | The extracted answer is a substring of the input |
| Protocol.ExtractIdempotentWithoutMarker | react_agent/agent/react_loop.py:117 | On marker-free text extraction is the identity, so applying it twice changes nothing |
| Protocol.ActionPatternDeterministic | react_agent/agent/react_loop.py:127 | No repeated class of the action pattern can run into the element after it, so a match at a position is unique |
| Protocol.DetectAction | react_agent/agent/react_loop.py:119-143 | A detected action names a non-empty run of word characters, and its raw text starts with `action` in any case and ends with `)` |
| Protocol.DetectActionNone | react_agent/agent/react_loop.py:128-143 | No action is detected exactly when the pattern matches at no position |
| Protocol.DetectActionIsFirstMatch | react_agent/agent/react_loop.py:128-141 | A detected action is the one the leftmost match spells out: group 1 as the name, group 2 decoded (or the empty dictionary when decoding fails) as the arguments, group 0 as the raw text |
| Protocol.NoBraceNoAction | react_agent/agent/react_loop.py:127 | Text without a `}` contains no action |
| Protocol.UnclosedArgumentsExample | react_agent/agent/react_loop.py:127-128 | `Action: foo({invalid json` contains no action |
| Pattern.GreedyExact | react_agent/agent/react_loop.py:127-128 | For a deterministic pattern, the scan at a position succeeds exactly when the pattern matches there, and it returns that match |
| Pattern.SearchExact | react_agent/agent/react_loop.py:128 | For a deterministic pattern, the search returns the leftmost match, or reports that the pattern matches nowhere |
| Tools.GetTool | react_agent/agent/tools.py:164-166 | A tool is found exactly when the name is a registry key, and it is filed under that name |
| Tools.RegistryComplete | react_agent/agent/tools.py:156-161 | Each of the four tools is found under its own name, and no other name finds anything |
| Tools.Params | react_agent/agent/tools.py:11-114 | The four keyword signatures (lines 11, 46, 77 and 114), in declaration order. The names of each are distinct, and the only default is `create_cake_order`'s `custom_message=""` |
| Tools.BindIn | react_agent/agent/tools.py:114 | Binding succeeds exactly when every key names a parameter and every parameter without a default gets a key. Each parameter then receives its key's value or its default. An unknown key is reported before missing arguments, and it is the first such key in dictionary order. The missing names reported are those `Missing` lists |
| Tools.FirstUnexpected | react_agent/agent/react_loop.py:166 | The first key, in dictionary order, that no parameter accepts; none exactly when every key is accepted |
| Tools.Missing | react_agent/agent/react_loop.py:166 | Exactly the required names the dictionary gives no value, never more names than are required |
| Tools.MissingInOrder | react_agent/agent/react_loop.py:166 | The missing names are listed in declaration order: they are the names at the increasing list of every position whose name has no key |
| Tools.MissingNoRepeats | react_agent/agent/react_loop.py:166 | When the required names are distinct, so are the missing names listed |
| Tools.RequiredDistinct | react_agent/agent/tools.py:11-114 | Parameters with distinct names give a list of required names without repeats, so each missing argument is named once |
| Tools.BindFields | react_agent/agent/tools.py:95-101 | Binding the parameters paired with their values gives back exactly those values |
| Tools.InvokeLogs | react_agent/agent/tools.py:94-106 | A call that binds and can open its log writes one line to the tool's own file. The line holds the timestamp with `Z`, then every parameter with the value it received, and binding it again repeats the call |
| Tools.Invoke | react_agent/agent/tools.py:114-152 | A call raises `TypeError` exactly when binding fails, with CPython's message, and logs exactly when it binds and the log can be opened |
| Tools.InvokeReturns | react_agent/agent/tools.py:149-152 | A call returns exactly when it binds, the log can be opened and (for a cake order) the flavor is a string; what it returns has status `success` |
| Tools.CakeLoggedBeforeReply | react_agent/agent/tools.py:144-151 | A cake order whose flavor is not a string is still logged, then fails with the `AttributeError` of `capitalize` |
| Tools.FeedbackReplyFixed | react_agent/agent/tools.py:71-74 | The feedback reply is the same whatever the question |
| Tools.ReplyMentions | react_agent/agent/tools.py:40-151 | Each reply carries the values it interpolates, at increasing and non-overlapping offsets in the order of the f-string. The lead reply has the name, then the email. The pickup reply has the customer, the date, the time, then the items. The cake reply has the name, the capitalized flavor, the size, the date, then the email |
| Tools.Reply | react_agent/agent/tools.py:40-152 | A reply fails exactly for a cake order whose flavor is not a string, and the failure names the flavor's type. What the successful texts contain is stated by `ReplyMentions` |
| Text.FormatInOrder | react_agent/agent/tools.py:110 | An f-string places its values left to right: the first right after the opening literal, and each after the end of the one before |
| Tools.MissingTextNames | react_agent/agent/react_loop.py:168-172 | The invalid-arguments text for missing arguments quotes every missing name |
| Tools.MissingTextCount | react_agent/agent/react_loop.py:168-172 | The same text gives the number of missing arguments in decimal, right after `missing ` |
| Tools.UnexpectedTextMentions | react_agent/agent/react_loop.py:168-172 | The invalid-arguments text for an unknown key quotes the key |
| Text.Capitalize | react_agent/agent/tools.py:151 | `capitalize()` keeps the length, upper-cases the first character and lower-cases the rest |
| Text.CapitalizeIdempotent | react_agent/agent/tools.py:151 | Capitalizing twice is capitalizing once |
| Text.Strip | react_agent/agent/react_loop.py:113 | The result is the text with a whitespace-only prefix and suffix removed; it is empty exactly when the text is all whitespace, and otherwise starts and ends with non-whitespace |
| Text.FirstParagraph | react_agent/agent/react_loop.py:115 | The part before the first blank line: no blank line of the text starts inside it, and it is the whole text or followed by a blank line. The part holds no blank line |
| Dispatch.Execute | react_agent/agent/react_loop.py:145-177 | An unknown name gives the fixed two-tool error. A returned dictionary passes through unchanged. A `TypeError` becomes `Invalid arguments for <name>: …` and any other exception `Tool execution error: …`. The dispatcher never raises |
| Dispatch.ExecuteTools | react_agent/agent/react_loop.py:156-177 | With the real tools, the result is a success exactly when the name is registered, the keywords bind, the log can be opened and a cake flavor is a string. It reports invalid arguments exactly when a registered tool's keywords do not bind |
| Controller.Fallback | react_agent/agent/react_loop.py:94 | The forced conclusion is the extracted answer when that is non-empty, and the reply itself when it is empty. It is empty only when the reply is, and it is the unchanged reply when there is no marker |
| Controller.Turn | react_agent/agent/react_loop.py:50-96 | One turn either continues with the reply and, when it names an action, the observation and the log entry; or it concludes with the answer and the closing messages |
| Controller.Run | react_agent/agent/react_loop.py:32-101 | The run is a sequence of continuing turns followed by a conclusion at the marker, a forced conclusion on the last turn, or the apology after all turns. The conversation and the action log are exactly what those turns produce |
| Controller.RunBounds | react_agent/agent/react_loop.py:42-50 | The caller's messages stay a prefix of the conversation; at most `max_turns` turns run (none when it is negative), and all of them when the turns run out |
| Controller.RunCounts | react_agent/agent/react_loop.py:53-93 | After the caller's messages there is one assistant message per turn, plus one for a forced conclusion, and one user message per logged action, plus one for the request to conclude. So the model replies at most `max(max_turns, 0) + 1` times, and never when `max_turns` is zero or negative |
| Controller.RunMarker | react_agent/agent/react_loop.py:56-62 | No reply before the last carries the marker; a run stopped at the marker takes its answer from the last reply, which carries it |
| Controller.RunActions | react_agent/agent/react_loop.py:64-78 | Logged actions carry strictly increasing turn numbers within the turns taken. The turn that concludes the run calls no tool, so an answer takes precedence over an action in the same reply |

## Left out

- File I/O: creating the `logs` directory, opening and appending the JSONL
  files. A failure to open the log becomes the `Env.ioError` message, and the
  line that would be appended becomes `Effect.log`.
- The clock: `datetime.utcnow().isoformat()` is the `Env.timestamp` parameter.
- `json.loads` and `json.dumps` are parameters rather than a JSON parser and
  printer. A decoded value is kept as a string, or as its Python type name
  together with the text `str()` gives it. Nested values are not looked into.
- A decoded object with a repeated key: `json.loads` keeps the last value,
  while `Values.Lookup` returns the first. The decoder parameter is taken to
  produce each key once.
- The model endpoint and its exceptions, which the controller does not catch.
- Unicode:
  - `\s`, `\w` and `str.isspace` are read over ASCII;
  - case-insensitive matching and `capitalize()` fold only ASCII letters.
- CPython's `TypeError` wording is modelled for the two cases binding can hit:
  an unexpected keyword and missing required arguments.
- Tools.Invoke: the `TypeError` texts are those of CPython 3.10 to 3.12.
  From 3.13 CPython adds a suggestion such as `Did you mean 'question'?` to an
  unexpected keyword close to a parameter name, and the model does not.
- `json.loads` raising something other than `JSONDecodeError`: a `ValueError`
  for an integer literal over 4300 digits (CPython 3.11, and 3.10.7 and
  later 3.10 releases) or a
  `RecursionError` for deeply nested arrays. `_detect_action` catches only
  `JSONDecodeError`, so these escape it and `run`. The decoder parameter
  returns an optional value and cannot raise, so the model has no such path.
- `get_tool_descriptions`, `create_react_controller` and everything outside
  `react_loop.py` and `tools.py`: the web UI, the LangGraph wrapper, personas
  and the experiment scripts. `framework_impl.py` is not part of this model;
  the caller's seeded `[system, user]` messages are an arbitrary message list
  here.
