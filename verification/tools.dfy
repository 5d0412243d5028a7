/**
 The bakery's four tools, their registry, and how a call `tool(**args)`
 with a decoded keyword dictionary binds, fails or returns.
 */
module Tools {

  import opened Wrappers
  import opened Text
  import opened Values

  datatype Tool = RecordCustomerInterest | RecordFeedback | SchedulePickup | CreateCakeOrder

  /** The name the registry files each tool under. */
  function Name(tool: Tool): string {
    match tool
    case RecordCustomerInterest => "record_customer_interest"
    case RecordFeedback => "record_feedback"
    case SchedulePickup => "schedule_pickup"
    case CreateCakeOrder => "create_cake_order"
  }

  /** The `TOOLS` dictionary. */
  const Registry: map<string, Tool> := map[
    "record_customer_interest" := RecordCustomerInterest,
    "record_feedback" := RecordFeedback,
    "schedule_pickup" := SchedulePickup,
    "create_cake_order" := CreateCakeOrder
  ]

  /** `get_tool`: a case-sensitive lookup, `None` for any other name. */
  function GetTool(name: string): (r: Option<Tool>)
    ensures r.Some? <==> name in Registry
    ensures r.Some? ==> Name(r.value) == name
  {
    if name in Registry then Some(Registry[name]) else None
  }

  /** The registry holds every tool under its own name and nothing else. */
  lemma RegistryComplete()
    ensures forall tool :: GetTool(Name(tool)) == Some(tool)
    ensures forall name :: GetTool(name).Some? <==> exists tool :: Name(tool) == name
  {
    forall name | GetTool(name).Some? ensures exists tool :: Name(tool) == name {
      assert Name(GetTool(name).value) == name;
    }
  }

  // ---------------------------------------------------------------------
  // Signatures and binding
  // ---------------------------------------------------------------------

  /** A keyword parameter, with the default value when it has one. */
  datatype Param = Param(name: string, default: Option<Json>)

  /** Each tool's parameters in declaration order. The names are distinct,
      and only `create_cake_order`'s `custom_message` has a default, the
      empty string. */
  function Params(tool: Tool): (r: seq<Param>)
    ensures DistinctNames(r)
    ensures forall j :: 0 <= j < |r| && r[j].default.Some? ==>
              tool == CreateCakeOrder && r[j] == Param("custom_message", Some(Str("")))
  {
    match tool
    case RecordCustomerInterest =>
      [Param("email", None), Param("name", None), Param("message", None)]
    case RecordFeedback =>
      [Param("question", None)]
    case SchedulePickup =>
      [Param("customer_name", None), Param("items", None), Param("pickup_date", None), Param("pickup_time", None)]
    case CreateCakeOrder =>
      [Param("name", None), Param("email", None), Param("cake_size", None), Param("flavor", None),
       Param("pickup_date", None), Param("custom_message", Some(Str("")))]
  }

  function AcceptedIn(ps: seq<Param>): set<string> {
    set p | p in ps :: p.name
  }

  /** The names of the parameters without a default, in declaration order. */
  function RequiredIn(ps: seq<Param>): (r: seq<string>)
    ensures forall n :: n in r <==> exists p :: p in ps && p.name == n && p.default.None?
  {
    if ps == [] then []
    else
      var rest := RequiredIn(ps[1..]);
      assert forall p :: p in ps <==> p == ps[0] || p in ps[1..];
      if ps[0].default.None? then [ps[0].name] + rest else rest
  }

  /** Why a keyword dictionary does not bind. */
  datatype BindError =
    | UnexpectedKeyword(key: string)        // a key no parameter is named
    | MissingArguments(names: seq<string>)  // required parameters left without a value

  /** The index of the first key, in dictionary order, that no parameter
      accepts; CPython reports that one. */
  function FirstUnexpected(args: Args, accepted: set<string>): (r: Option<nat>)
    ensures r.Some? ==> r.value < |args| && args[r.value].0 !in accepted
    ensures r.Some? ==> forall j :: 0 <= j < r.value ==> args[j].0 in accepted
    ensures r.None? <==> Keys(args) <= accepted
    decreases |args|
  {
    if args == [] then None
    else
      KeysCons(args);
      if args[0].0 !in accepted then Some(0)
      else
        match FirstUnexpected(args[1..], accepted)
        case None => None
        case Some(j) => Some(j + 1)
  }

  /** The required names the dictionary gives no value, in declaration order. */
  function Missing(required: seq<string>, keys: set<string>): (r: seq<string>)
    ensures forall n :: n in r <==> n in required && n !in keys
    ensures |r| <= |required|
  {
    if required == [] then []
    else
      var rest := Missing(required[1..], keys);
      assert forall n :: n in required <==> n == required[0] || n in required[1..];
      if required[0] in keys then rest else [required[0]] + rest
  }

  /** `idx` lists, in increasing order, every position of `required` whose
      name has no key, and `r` holds the names at those positions. */
  ghost predicate InDeclarationOrder(required: seq<string>, keys: set<string>, r: seq<string>, idx: seq<nat>) {
    && |idx| == |r|
    && (forall k :: 0 <= k < |idx| ==> idx[k] < |required| && r[k] == required[idx[k]] && r[k] !in keys)
    && (forall k, l :: 0 <= k < l < |idx| ==> idx[k] < idx[l])
    && (forall i :: MissingAt(required, keys, i) ==> i in idx)
  }

  /** No name occurs twice. */
  predicate NoRepeats(names: seq<string>) {
    forall i, j :: 0 <= i < j < |names| ==> names[i] != names[j]
  }

  /** Position `i` of `required` holds a name without a key. */
  predicate MissingAt(required: seq<string>, keys: set<string>, i: int) {
    0 <= i < |required| && required[i] !in keys
  }

  /** The missing names come in declaration order, each position once. */
  lemma {:induction false} MissingInOrder(required: seq<string>, keys: set<string>)
    ensures exists idx :: InDeclarationOrder(required, keys, Missing(required, keys), idx)
    decreases |required|
  {
    if required == [] {
      assert Missing(required, keys) == [];
      assert InDeclarationOrder(required, keys, [], []);
    } else {
      var rest := Missing(required[1..], keys);
      MissingInOrder(required[1..], keys);
      var idx :| InDeclarationOrder(required[1..], keys, rest, idx);
      var full := OrderCons(required, keys, rest, idx);
      if required[0] in keys {
        assert Missing(required, keys) == rest;
      } else {
        assert Missing(required, keys) == [required[0]] + rest;
      }
      assert InDeclarationOrder(required, keys, Missing(required, keys), full);
    }
  }

  /** Extends the positions of the tail's missing names to the whole list. */
  lemma OrderCons(required: seq<string>, keys: set<string>, rest: seq<string>, idx: seq<nat>)
    returns (full: seq<nat>)
    requires required != [] && InDeclarationOrder(required[1..], keys, rest, idx)
    ensures required[0] in keys ==> InDeclarationOrder(required, keys, rest, full)
    ensures required[0] !in keys ==> InDeclarationOrder(required, keys, [required[0]] + rest, full)
  {
    var shifted := ShiftPositions(required, keys, rest, idx);
    if required[0] in keys {
      full := shifted;
      assert !MissingAt(required, keys, 0);
    } else {
      full := [0] + shifted;
      var r := [required[0]] + rest;
      forall k | 0 < k < |full| ensures full[k] == shifted[k - 1] && r[k] == rest[k - 1] {
      }
      forall i | MissingAt(required, keys, i) ensures i in full {
        if 0 < i {
          assert i in shifted;
        }
      }
    }
  }

  /** The tail's positions, moved one along, are positions of the whole list. */
  lemma ShiftPositions(required: seq<string>, keys: set<string>, rest: seq<string>, idx: seq<nat>)
    returns (shifted: seq<nat>)
    requires required != [] && InDeclarationOrder(required[1..], keys, rest, idx)
    ensures |shifted| == |rest|
    ensures forall k :: 0 <= k < |shifted| ==>
              0 < shifted[k] < |required| && rest[k] == required[shifted[k]] && rest[k] !in keys
    ensures forall k, l :: 0 <= k < l < |shifted| ==> shifted[k] < shifted[l]
    ensures forall i :: 0 < i && MissingAt(required, keys, i) ==> i in shifted
  {
    var tail := required[1..];
    shifted := seq(|idx|, k requires 0 <= k < |idx| => idx[k] + 1);
    forall i | 0 < i && MissingAt(required, keys, i) ensures i in shifted {
      assert tail[i - 1] == required[i];
      assert MissingAt(tail, keys, i - 1);
      var k :| 0 <= k < |idx| && idx[k] == i - 1;
      assert shifted[k] == i;
    }
    forall k | 0 <= k < |idx| ensures rest[k] == required[shifted[k]] {
      assert tail[idx[k]] == required[idx[k] + 1];
    }
  }

  /** A name declared once is listed once. */
  lemma MissingNoRepeats(required: seq<string>, keys: set<string>)
    requires NoRepeats(required)
    ensures NoRepeats(Missing(required, keys))
  {
    var r := Missing(required, keys);
    MissingInOrder(required, keys);
    var idx :| InDeclarationOrder(required, keys, r, idx);
    forall k, l | 0 <= k < l < |r| ensures r[k] != r[l] {
      assert idx[k] < idx[l];
    }
  }

  /** The value parameter `p` receives: the dictionary's, or else its default. */
  function ValueFor(args: Args, p: Param): Option<Json> {
    match Lookup(args, p.name)
    case Some(v) => Some(v)
    case None => p.default
  }

  /** Keyword binding as CPython does it: an unknown key is reported first,
      then the required parameters that got no value; otherwise each
      parameter receives the dictionary's value or its default. */
  function BindIn(ps: seq<Param>, args: Args): (r: Result<seq<Json>, BindError>)
    ensures r.Ok? <==> Keys(args) <= AcceptedIn(ps) && forall n :: n in RequiredIn(ps) ==> n in Keys(args)
    ensures r.Ok? ==> && |r.value| == |ps|
                      && forall j :: 0 <= j < |ps| ==>
                           && (ps[j].name in Keys(args) ==> Lookup(args, ps[j].name) == Some(r.value[j]))
                           && (ps[j].name !in Keys(args) ==> ps[j].default == Some(r.value[j]))
    ensures r.Err? && r.error.UnexpectedKeyword? ==> r.error.key in Keys(args) && r.error.key !in AcceptedIn(ps)
    ensures r.Err? && r.error.UnexpectedKeyword? ==>
              && FirstUnexpected(args, AcceptedIn(ps)).Some?
              && r.error.key == args[FirstUnexpected(args, AcceptedIn(ps)).value].0
    ensures r.Err? && r.error.MissingArguments? ==>
              && Keys(args) <= AcceptedIn(ps)
              && r.error.names == Missing(RequiredIn(ps), Keys(args))
              && |r.error.names| > 0
              && forall n :: n in r.error.names <==> n in RequiredIn(ps) && n !in Keys(args)
  {
    match FirstUnexpected(args, AcceptedIn(ps))
    case Some(j) =>
      assert args[j] in args;
      Err(UnexpectedKeyword(args[j].0))
    case None =>
      var missing := Missing(RequiredIn(ps), Keys(args));
      if missing != [] then
        assert missing[0] in missing;
        Err(MissingArguments(missing))
      else
        assert forall j :: 0 <= j < |ps| && ps[j].default.None? ==> Lookup(args, ps[j].name).Some? by {
          forall j | 0 <= j < |ps| && ps[j].default.None? ensures Lookup(args, ps[j].name).Some? {
            assert ps[j] in ps;
            assert ps[j].name in RequiredIn(ps);
          }
        }
        Ok(seq(|ps|, j requires 0 <= j < |ps| => ValueFor(args, ps[j]).value))
  }

  function Bind(tool: Tool, args: Args): Result<seq<Json>, BindError> {
    BindIn(Params(tool), args)
  }

  // ---------------------------------------------------------------------
  // TypeError messages
  // ---------------------------------------------------------------------

  function Quote(n: string): string {
    "'" + n + "'"
  }

  /** Three or more quoted names: `'a', 'b', and 'c'`. */
  function SerialList(names: seq<string>): string
    requires |names| >= 2
    decreases |names|
  {
    if |names| == 2 then Quote(names[0]) + ", and " + Quote(names[1])
    else Quote(names[0]) + ", " + SerialList(names[1..])
  }

  /** How CPython lists missing argument names. */
  function NameList(names: seq<string>): string
    requires |names| > 0
  {
    if |names| == 1 then Quote(names[0])
    else if |names| == 2 then Quote(names[0]) + " and " + Quote(names[1])
    else SerialList(names)
  }

  /** What follows the count in the message for missing arguments. */
  function MissingTail(names: seq<string>): string
    requires |names| > 0
  {
    " required positional argument" + (if |names| == 1 then "" else "s") + ": " + NameList(names)
  }

  /** `str(e)` for the `TypeError` a failed binding raises. */
  function TypeErrorText(fname: string, e: BindError): string
    requires e.MissingArguments? ==> e.names != []
  {
    match e
    case UnexpectedKeyword(key) =>
      fname + "() got an unexpected keyword argument " + Quote(key)
    case MissingArguments(names) =>
      fname + "() missing " + NatText(|names|) + MissingTail(names)
  }

  lemma {:induction false} SerialListMentions(names: seq<string>)
    requires |names| >= 2
    ensures forall k :: 0 <= k < |names| ==> IsSubstring(Quote(names[k]), SerialList(names))
    decreases |names|
  {
    var s := SerialList(names);
    assert OccursAt(Quote(names[0]), s, 0);
    if |names| == 2 {
      assert OccursAt(Quote(names[1]), s, |Quote(names[0]) + ", and "|);
    } else {
      var rest := SerialList(names[1..]);
      SerialListMentions(names[1..]);
      var off := |Quote(names[0]) + ", "|;
      forall k | 1 <= k < |names| ensures IsSubstring(Quote(names[k]), s) {
        assert Quote(names[k]) == Quote(names[1..][k - 1]);
        var a :| OccursAt(Quote(names[k]), rest, a);
        assert OccursAt(Quote(names[k]), s, off + a);
      }
    }
  }

  /** The message says how many arguments are missing, in decimal. */
  lemma MissingTextCount(fname: string, names: seq<string>)
    requires |names| > 0
    ensures OccursAt(NatText(|names|), TypeErrorText(fname, MissingArguments(names)), |fname| + 11)
    ensures DecimalValue(NatText(|names|)) == |names|
  {
    OccursBetween(fname + "() missing ", NatText(|names|), MissingTail(names));
  }

  /** The message quotes every missing argument's name. */
  lemma MissingTextNames(fname: string, names: seq<string>)
    requires |names| > 0
    ensures forall k :: 0 <= k < |names| ==> IsSubstring(Quote(names[k]), TypeErrorText(fname, MissingArguments(names)))
  {
    var msg := TypeErrorText(fname, MissingArguments(names));
    var list := NameList(names);
    var head := " required positional argument" + (if |names| == 1 then "" else "s") + ": ";
    var pre := fname + "() missing " + NatText(|names|);
    assert MissingTail(names) == head + list;
    assert msg == pre + MissingTail(names);
    NameListMentions(names);
    forall k | 0 <= k < |names| ensures IsSubstring(Quote(names[k]), msg) {
      var a :| OccursAt(Quote(names[k]), list, a);
      OccursExtend(Quote(names[k]), list, a, head);
      OccursExtend(Quote(names[k]), head + list, |head| + a, pre);
    }
  }

  lemma NameListMentions(names: seq<string>)
    requires |names| > 0
    ensures forall k :: 0 <= k < |names| ==> IsSubstring(Quote(names[k]), NameList(names))
  {
    var list := NameList(names);
    if |names| >= 3 {
      SerialListMentions(names);
    } else if |names| == 2 {
      assert OccursAt(Quote(names[0]), list, 0);
      assert OccursAt(Quote(names[1]), list, |Quote(names[0]) + " and "|);
    } else {
      assert OccursAt(Quote(names[0]), list, 0);
    }
  }

  /** The message for an unknown key quotes the key. */
  lemma UnexpectedTextMentions(fname: string, key: string)
    ensures IsSubstring(Quote(key), TypeErrorText(fname, UnexpectedKeyword(key)))
  {
    var msg := TypeErrorText(fname, UnexpectedKeyword(key));
    assert OccursAt(Quote(key), msg, |msg| - |Quote(key)|);
  }

  // ---------------------------------------------------------------------
  // Calling a tool
  // ---------------------------------------------------------------------

  /** The dictionary a tool returns. */
  datatype ToolResult = ToolResult(status: string, message: string)

  /** How a call ends: the tool returns, binding raises `TypeError`, or the
      body raises some other exception, whose `str()` is kept. */
  datatype Outcome =
    | Returned(result: ToolResult)
    | RaisedTypeError(msg: string)
    | RaisedOther(msg: string)

  /** One JSON line appended to a log file: the fields in the order the
      tool's dictionary lists them. */
  datatype LogEntry = LogEntry(file: string, fields: seq<(string, Json)>)

  /** What the tool body sees of the outside world: the UTC clock rendered by
      `isoformat()`, and the error, if any, that creating the `logs`
      directory or opening the log file raises. */
  datatype Env = Env(timestamp: string, ioError: Option<string>)

  /** A call's outcome and the log line it appended, if any. */
  datatype Effect = Effect(outcome: Outcome, log: Option<LogEntry>)

  function LogFile(tool: Tool): string {
    match tool
    case RecordCustomerInterest => "logs/leads.jsonl"
    case RecordFeedback => "logs/feedback.jsonl"
    case SchedulePickup => "logs/scheduled_pickups.jsonl"
    case CreateCakeOrder => "logs/cake_orders.jsonl"
  }

  /** Pairs each parameter's name with the value it received. */
  function Fields(ps: seq<Param>, vals: seq<Json>): (r: seq<(string, Json)>)
    requires |ps| == |vals|
    ensures |r| == |ps|
    ensures forall j :: 0 <= j < |r| ==> r[j] == (ps[j].name, vals[j])
  {
    seq(|ps|, j requires 0 <= j < |ps| => (ps[j].name, vals[j]))
  }

  const FeedbackReply := "Thank you! " + "We've logged your question for our team to review."

  /** The confirmation text each tool returns once its line is logged;
      `flavor.capitalize()` raises `AttributeError` on a value that is not
      a string. */
  function Reply(tool: Tool, vals: seq<Json>): (r: Result<string, string>)
    requires |vals| == |Params(tool)|
    ensures r.Err? <==> tool == CreateCakeOrder && !vals[3].Str?
    ensures r.Err? ==> IsSubstring(vals[3].typeName, r.error)
  {
    match tool
    case RecordCustomerInterest =>
      Ok(Format(LeadPieces, [Display(vals[1]), Display(vals[0])]))
    case RecordFeedback =>
      Ok(FeedbackReply)
    case SchedulePickup =>
      Ok(Format(PickupPieces, [Display(vals[0]), Display(vals[2]), Display(vals[3]), Display(vals[1])]))
    case CreateCakeOrder =>
      match vals[3]
      case Other(typeName, _) =>
        OccursBetween("'", typeName, "' object has no attribute 'capitalize'");
        Err("'" + typeName + "' object has no attribute 'capitalize'")
      case Str(flavor) =>
        Ok(Format(CakePieces, [Display(vals[0]), Capitalize(flavor), Display(vals[2]), Display(vals[4]), Display(vals[1])]))
  }

  /** `f"Lead recorded for {name}. Our team will reach out via {email} soon!"` */
  const LeadPieces := ["Lead recorded for ", ". Our team will reach out via ", " soon!"]

  /** `f"Pickup scheduled for {customer_name} on {pickup_date} at {pickup_time}. We'll have {items} ready!"` */
  const PickupPieces := ["Pickup scheduled for ", " on ", " at ", ". We'll have ", " ready!"]

  /** `f"Custom cake order received for {name}! {flavor.capitalize()} cake ({cake_size}) scheduled
      for {pickup_date}. Our team will reach out via {email} to confirm details and pricing."` */
  const CakePieces :=
    ["Custom cake order received for ", "! ", " cake (", ") scheduled for ",
     ". Our team will reach out via ", " to confirm details and pricing."]

  /** `tool(**args)`: bind the keywords, make sure the log can be written,
      append the timestamped line, then build the reply. */
  function Invoke(tool: Tool, args: Args, env: Env): (e: Effect)
    ensures e.outcome.RaisedTypeError? <==> Bind(tool, args).Err?
    ensures e.outcome.RaisedTypeError? ==> e.outcome.msg == TypeErrorText(Name(tool), Bind(tool, args).error)
    ensures e.log.Some? <==> Bind(tool, args).Ok? && env.ioError.None?
  {
    match Bind(tool, args)
    case Err(err) => Effect(RaisedTypeError(TypeErrorText(Name(tool), err)), None)
    case Ok(vals) =>
      if env.ioError.Some? then Effect(RaisedOther(env.ioError.value), None)
      else
        var entry := LogEntry(LogFile(tool), [("ts", Str(env.timestamp + "Z"))] + Fields(Params(tool), vals));
        match Reply(tool, vals)
        case Ok(msg) => Effect(Returned(ToolResult("success", msg)), Some(entry))
        case Err(msg) => Effect(RaisedOther(msg), Some(entry))
  }

  /** The cake order's flavor argument, when the call binds. */
  function FlavorOf(args: Args): Json {
    match Lookup(args, "flavor")
    case Some(v) => v
    case None => Str("")
  }

  /** A call returns exactly when the keywords bind, the log is writable,
      and (for a cake order) the flavor is a string; whatever a tool
      returns has status `success`. */
  lemma InvokeReturns(tool: Tool, args: Args, env: Env)
    ensures Invoke(tool, args, env).outcome.Returned? <==>
              && Bind(tool, args).Ok? && env.ioError.None?
              && (tool == CreateCakeOrder ==> FlavorOf(args).Str?)
    ensures Invoke(tool, args, env).outcome.Returned? ==> Invoke(tool, args, env).outcome.result.status == "success"
  {
    if tool == CreateCakeOrder && Bind(tool, args).Ok? {
      FlavorBound(args);
    }
  }

  /** The value bound to a cake order's fourth parameter is its flavor. */
  lemma FlavorBound(args: Args)
    requires Bind(CreateCakeOrder, args).Ok?
    ensures Bind(CreateCakeOrder, args).value[3] == FlavorOf(args)
  {
    assert Params(CreateCakeOrder)[3].name == "flavor";
  }

  /** Each parameter's name, once. */
  predicate DistinctNames(ps: seq<Param>) {
    forall i, j :: 0 <= i < j < |ps| ==> ps[i].name != ps[j].name
  }

  /** Parameters named once each give required names listed once each, so
      a `TypeError` for missing arguments names each of them once. */
  lemma {:induction false} RequiredDistinct(ps: seq<Param>)
    requires DistinctNames(ps)
    ensures NoRepeats(RequiredIn(ps))
    decreases |ps|
  {
    if ps == [] {
      assert RequiredIn(ps) == [];
    } else {
      var rest := RequiredIn(ps[1..]);
      RequiredDistinct(ps[1..]);
      if ps[0].default.None? {
        assert RequiredIn(ps) == [ps[0].name] + rest;
        forall j | 0 <= j < |rest| ensures rest[j] != ps[0].name {
          assert rest[j] in rest;
          var p :| p in ps[1..] && p.name == rest[j] && p.default.None?;
          var m :| 0 <= m < |ps[1..]| && ps[1..][m] == p;
          assert ps[m + 1] == p;
        }
        var r := RequiredIn(ps);
        forall i, j | 0 <= i < j < |r| ensures r[i] != r[j] {
          assert r[j] == rest[j - 1];
          if 0 < i {
            assert r[i] == rest[i - 1];
          } else {
            assert r[i] == ps[0].name;
          }
        }
      } else {
        assert RequiredIn(ps) == rest;
      }
    }
  }

  lemma FieldsTail(ps: seq<Param>, vals: seq<Json>)
    requires |ps| == |vals| && ps != []
    ensures Fields(ps, vals)[1..] == Fields(ps[1..], vals[1..])
  {
  }

  lemma {:induction false} LookupFields(ps: seq<Param>, vals: seq<Json>, j: nat)
    requires |ps| == |vals| && DistinctNames(ps) && j < |ps|
    ensures Lookup(Fields(ps, vals), ps[j].name) == Some(vals[j])
    decreases j
  {
    var f := Fields(ps, vals);
    if 0 < j {
      FieldsTail(ps, vals);
      LookupFields(ps[1..], vals[1..], j - 1);
      assert f[0].0 != ps[j].name;
    }
  }

  /** Binding the dictionary that pairs each parameter with a value gives
      back those values: a call made from a logged line repeats the call
      that logged it. */
  lemma BindFields(ps: seq<Param>, vals: seq<Json>)
    requires |ps| == |vals| && DistinctNames(ps)
    ensures BindIn(ps, Fields(ps, vals)) == Ok(vals)
  {
    var f := Fields(ps, vals);
    assert Keys(f) == AcceptedIn(ps) by {
      forall n | n in Keys(f) ensures n in AcceptedIn(ps) {
        var q :| q in f && q.0 == n;
        var j :| 0 <= j < |f| && f[j] == q;
        assert ps[j] in ps;
      }
      forall n | n in AcceptedIn(ps) ensures n in Keys(f) {
        var p :| p in ps && p.name == n;
        var j :| 0 <= j < |ps| && ps[j] == p;
        assert f[j] in f;
      }
    }
    forall j | 0 <= j < |ps| ensures Lookup(f, ps[j].name) == Some(vals[j]) {
      LookupFields(ps, vals, j);
    }
    forall n | n in RequiredIn(ps) ensures n in Keys(f) {
      var p :| p in ps && p.name == n && p.default.None?;
    }
    var r := BindIn(ps, f);
    assert r.value == vals;
  }

  /** A call that gets past binding and opening the log appends one line to
      the tool's file: the timestamp with a `Z`, then each parameter with
      the value it received, so that binding the line again repeats the call. */
  lemma InvokeLogs(tool: Tool, args: Args, env: Env)
    ensures var e := Invoke(tool, args, env);
            e.log.Some? ==> && e.log.value.file == LogFile(tool)
                            && |e.log.value.fields| == |Params(tool)| + 1
                            && e.log.value.fields[0] == ("ts", Str(env.timestamp + "Z"))
                            && Bind(tool, e.log.value.fields[1..]) == Bind(tool, args)
  {
    var e := Invoke(tool, args, env);
    if e.log.Some? {
      var vals := Bind(tool, args).value;
      assert e.log.value.fields[1..] == Fields(Params(tool), vals);
      BindFields(Params(tool), vals);
    }
  }

  /** The cake order is logged before its reply is built, so a flavor that
      is not a string still leaves a line in the log. */
  lemma CakeLoggedBeforeReply(args: Args, env: Env)
    requires Bind(CreateCakeOrder, args).Ok? && env.ioError.None?
    requires FlavorOf(args).Other?
    ensures Invoke(CreateCakeOrder, args, env).log.Some?
    ensures Invoke(CreateCakeOrder, args, env).outcome ==
              RaisedOther("'" + FlavorOf(args).typeName + "' object has no attribute 'capitalize'")
  {
    FlavorBound(args);
  }

  /** The feedback reply does not depend on the question. */
  lemma FeedbackReplyFixed(args: Args, env: Env)
    requires Invoke(RecordFeedback, args, env).outcome.Returned?
    ensures Invoke(RecordFeedback, args, env).outcome.result == ToolResult("success", FeedbackReply)
  {
  }

  /** A message rendered from an f-string contains each of its values, in order. */
  lemma Echoes(pieces: seq<string>, values: seq<string>, msg: string)
    requires |pieces| == |values| + 1 && msg == Format(pieces, values)
    ensures forall j :: 0 <= j < |values| ==> IsSubstring(values[j], msg)
    ensures InOrder(values, msg)
  {
    FormatMentions(pieces, values);
    var offs := FormatInOrder(pieces, values);
  }

  /** The replies echo what the customer gave, in the order of the message
      text: the lead reply names the customer, then the contact; the pickup
      reply the customer, the date, the time, then the items; and the cake
      reply the name, the capitalized flavor, the size, the date, then the
      contact. */
  lemma ReplyMentions(tool: Tool, vals: seq<Json>)
    requires |vals| == |Params(tool)|
    requires Reply(tool, vals).Ok?
    ensures var msg := Reply(tool, vals).value;
            match tool
            case RecordCustomerInterest =>
              && IsSubstring(Display(vals[1]), msg) && IsSubstring(Display(vals[0]), msg)
              && InOrder([Display(vals[1]), Display(vals[0])], msg)
            case RecordFeedback => true
            case SchedulePickup =>
              && (forall j :: 0 <= j < 4 ==> IsSubstring(Display(vals[j]), msg))
              && InOrder([Display(vals[0]), Display(vals[2]), Display(vals[3]), Display(vals[1])], msg)
            case CreateCakeOrder =>
              && IsSubstring(Display(vals[0]), msg) && IsSubstring(Capitalize(vals[3].s), msg)
              && IsSubstring(Display(vals[2]), msg) && IsSubstring(Display(vals[4]), msg)
              && IsSubstring(Display(vals[1]), msg)
              && InOrder([Display(vals[0]), Capitalize(vals[3].s), Display(vals[2]), Display(vals[4]), Display(vals[1])], msg)
  {
    var msg := Reply(tool, vals).value;
    match tool
    case RecordCustomerInterest =>
      var values := [Display(vals[1]), Display(vals[0])];
      Echoes(LeadPieces, values, msg);
      assert values[0] == Display(vals[1]) && values[1] == Display(vals[0]);
    case RecordFeedback =>
    case SchedulePickup =>
      var values := [Display(vals[0]), Display(vals[2]), Display(vals[3]), Display(vals[1])];
      Echoes(PickupPieces, values, msg);
      assert values[0] == Display(vals[0]) && values[3] == Display(vals[1]);
      assert values[1] == Display(vals[2]) && values[2] == Display(vals[3]);
    case CreateCakeOrder =>
      var values := [Display(vals[0]), Capitalize(vals[3].s), Display(vals[2]), Display(vals[4]), Display(vals[1])];
      Echoes(CakePieces, values, msg);
      assert values[0] == Display(vals[0]) && values[1] == Capitalize(vals[3].s);
      assert values[2] == Display(vals[2]) && values[3] == Display(vals[4]) && values[4] == Display(vals[1]);
  }

}
