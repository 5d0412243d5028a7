/**
 The values that travel between the parser, the dispatcher and the tools:
 decoded JSON values and keyword-argument dictionaries.
 */
module Values {

  import opened Wrappers

  /** A value produced by decoding the action's JSON object. Strings are kept;
      every other JSON value (number, boolean, null, array, object) is kept as
      its Python type name and the text `str()` renders it as. */
  datatype Json = Str(s: string) | Other(typeName: string, text: string)

  /** A decoded JSON object: key/value pairs in insertion order, as a Python
      dict keeps them. */
  type Args = seq<(string, Json)>

  function Keys(args: Args): set<string> {
    set p | p in args :: p.0
  }

  lemma KeysCons(args: Args)
    requires args != []
    ensures Keys(args) == {args[0].0} + Keys(args[1..])
  {
    assert args == [args[0]] + args[1..];
  }

  /** The value stored under `key`. */
  function Lookup(args: Args, key: string): (r: Option<Json>)
    ensures r.Some? <==> key in Keys(args)
    ensures r.Some? ==> (key, r.value) in args
    decreases |args|
  {
    if args == [] then None
    else
      KeysCons(args);
      if args[0].0 == key then Some(args[0].1) else Lookup(args[1..], key)
  }

  /** What an f-string placeholder `{v}` renders: `str(v)`. */
  function Display(v: Json): string {
    match v
    case Str(s) => s
    case Other(_, text) => text
  }
}
