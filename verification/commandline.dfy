/**
 Command-line lookups `get_flag` and `get_option`. Both call `args.index`,
 which raises when the value is absent; `get_option` also indexes one past
 the found position, which raises when the option is the last argument.
 Both exceptions are caught by a bare `except`, which is modelled as the
 `false` / `None` result.
 */
module CommandLine {
  import opened Wrappers

  /** Python's `args.index(x)`: the first position of `x`, or None where it raises. */
  function Index(args: seq<string>, x: string): (r: Option<int>)
    ensures r.None? <==> x !in args
    ensures r.Some? ==> 0 <= r.value < |args| && args[r.value] == x
    ensures r.Some? ==> forall j :: 0 <= j < r.value ==> args[j] != x
  {
    if args == [] then None
    else if args[0] == x then Some(0)
    else
      var rest := Index(args[1..], x);
      if rest.None? then None else Some(rest.value + 1)
  }

  /** `get_flag`: true when the flag is among the arguments. */
  function GetFlag(flag: string, args: seq<string>): (present: bool)
    ensures present <==> flag in args
  {
    Index(args, flag).Some?
  }

  /** `get_option`: the argument after the first occurrence of the option, or
      None when the option is absent or is the last argument. */
  function GetOption(option: string, args: seq<string>): (r: Option<string>)
    ensures option !in args ==> r == None
    ensures forall i :: 0 <= i < |args| && args[i] == option && (forall j :: 0 <= j < i ==> args[j] != option)
                        ==> r == (if i + 1 < |args| then Some(args[i + 1]) else None)
  {
    var found := Index(args, option);
    if found.None? then None
    else if found.value + 1 < |args| then Some(args[found.value + 1])
    else None
  }

  /** An option given as the last argument has no value. */
  lemma OptionLastHasNoValue(option: string, args: seq<string>)
    requires option !in args
    ensures GetOption(option, args + [option]) == None
  {
    assert (args + [option])[|args|] == option;
  }

  /** Only the first occurrence of an option counts. */
  lemma FirstOptionWins(option: string, value: string, rest: seq<string>)
    ensures GetOption(option, [option, value] + rest) == Some(value)
  {
    assert ([option, value] + rest)[0] == option;
  }
}
