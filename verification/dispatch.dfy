/**
 `_execute_tool`: look the tool up by name, call it with the decoded
 keywords, and turn every failure into an error dictionary.
 */
module Dispatch {

  import opened Values
  import opened Tools

  /** The reply for a name the registry does not hold. It lists only two of
      the four tools, as the controller writes it. */
  function UnknownTool(name: string): ToolResult {
    ToolResult("error", "Unknown tool: " + name + ". Available tools: record_customer_interest, record_feedback")
  }

  /** `_execute_tool(name, args)`, where `call` runs a registered tool. A
      `TypeError` becomes "Invalid arguments", any other exception "Tool
      execution error", and a returned dictionary passes through as it is. */
  function Execute(name: string, args: Args, call: (Tool, Args) -> Outcome): (r: ToolResult)
    ensures GetTool(name).None? ==> r == UnknownTool(name)
    ensures GetTool(name).Some? ==>
              match call(GetTool(name).value, args)
              case Returned(result) => r == result
              case RaisedTypeError(msg) => r == ToolResult("error", "Invalid arguments for " + name + ": " + msg)
              case RaisedOther(msg) => r == ToolResult("error", "Tool execution error: " + msg)
  {
    match GetTool(name)
    case None => UnknownTool(name)
    case Some(tool) =>
      match call(tool, args)
      case Returned(result) => result
      case RaisedTypeError(msg) => ToolResult("error", "Invalid arguments for " + name + ": " + msg)
      case RaisedOther(msg) => ToolResult("error", "Tool execution error: " + msg)
  }

  predicate StartsWith(s: string, p: string) {
    p <= s
  }

  /** With the real tools behind `call`: the result is a success exactly when
      the name is registered, the keywords bind, the log is writable and a
      cake order's flavor is a string; it reports invalid arguments exactly
      when the name is registered and the keywords do not bind, quoting the
      `TypeError`. */
  lemma ExecuteTools(name: string, args: Args, env: Env)
    ensures var r := Execute(name, args, (tool, a) => Invoke(tool, a, env).outcome);
            && (r.status == "success" <==>
                  && GetTool(name).Some? && Bind(GetTool(name).value, args).Ok? && env.ioError.None?
                  && (GetTool(name).value == CreateCakeOrder ==> FlavorOf(args).Str?))
            && (r.status == "error" <==> r.status != "success")
            && (StartsWith(r.message, "Invalid arguments for " + name + ": ") <==>
                  GetTool(name).Some? && Bind(GetTool(name).value, args).Err?)
            && (GetTool(name).Some? && Bind(GetTool(name).value, args).Err? ==>
                  r.message == "Invalid arguments for " + name + ": "
                               + TypeErrorText(name, Bind(GetTool(name).value, args).error))
  {
    var call := (tool, a) => Invoke(tool, a, env).outcome;
    var r := Execute(name, args, call);
    var pre := "Invalid arguments for " + name + ": ";
    match GetTool(name)
    case None =>
      assert r.message[0] == 'U';
    case Some(tool) =>
      InvokeReturns(tool, args, env);
      match call(tool, args)
      case Returned(result) =>
        ReplyNotInvalid(tool, args, env, pre);
      case RaisedTypeError(msg) =>
      case RaisedOther(msg) =>
        assert r.message[0] == 'T';
  }

  /** No reply a tool returns begins like the invalid-arguments message. */
  lemma ReplyNotInvalid(tool: Tool, args: Args, env: Env, pre: string)
    requires Invoke(tool, args, env).outcome.Returned?
    requires |pre| > 0 && pre[0] == 'I'
    ensures !StartsWith(Invoke(tool, args, env).outcome.result.message, pre)
  {
    var msg := Invoke(tool, args, env).outcome.result.message;
    match tool
    case RecordCustomerInterest => assert msg[0] == LeadPieces[0][0];
    case RecordFeedback => assert msg == FeedbackReply && FeedbackReply[0] == 'T';
    case SchedulePickup => assert msg[0] == PickupPieces[0][0];
    case CreateCakeOrder => assert msg[0] == CakePieces[0][0];
  }
}
