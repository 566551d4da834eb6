/** `nob_cmd_flags_parse` written the way the C code runs: an outer `for` over
    the argument list that breaks at the first token that is not flag-shaped,
    and an inner `for` over the live registry that breaks at the first match.
    It computes the same outcome as the functional `FlagParse.Parse`. */
module ParseLoop {
  import opened DynArray
  import opened CmdFlags
  import opened FlagParse
  import opened ParseLemmas

  /** The inner loop: the first live descriptor named `name` has its boolean
      set and is swapped to the last live slot, and `count` is decremented. */
  method MatchToken(registry: Registry, store: seq<bool>, name: string)
    returns (registry': Registry, store': seq<bool>)
    requires Valid(State(registry, store))
    ensures State(registry', store') == Examine(State(registry, store), name)
  {
    registry', store' := registry, store;
    var flagIdx := 0;
    while flagIdx < |registry'|
      invariant 0 <= flagIdx <= |registry'|
      invariant forall k :: 0 <= k < flagIdx ==> registry'[k].name != name
      invariant registry' == registry && store' == store
      decreases |registry'| - flagIdx
    {
      var flag := registry'[flagIdx];
      if flag.name == name {
        store' := store'[flag.value := true];
        registry' := Swap(registry', flagIdx, |registry'| - 1);
        registry' := registry'[..|registry'| - 1];
        return;
      }
      flagIdx := flagIdx + 1;
    }
  }

  /** Examining the token at `i` after those before it extends the run by one. */
  lemma ExamineOneMore(st: State, argv: seq<string>, i: nat)
    requires Valid(st) && 1 <= i < |argv|
    ensures ExamineAll(st, FlagNames(argv[1..i + 1])) ==
            Examine(ExamineAll(st, FlagNames(argv[1..i])), FlagName(argv[i]))
  {
    assert FlagNames(argv[1..i + 1]) == FlagNames(argv[1..i]) + [FlagName(argv[i])];
    ExamineAllSnoc(st, FlagNames(argv[1..i]), FlagName(argv[i]));
  }

  method ParseInPlace(st: State, args: Args, consumeHyphen: bool) returns (parsed: nat, rest: Args, out: State)
    requires args.argc <= |args.argv| && Valid(st)
    ensures Outcome(parsed, rest, out) == Parse(st, args, consumeHyphen)
  {
    if args.argc <= 0 {
      return 0, args, st;
    }
    var argv := args.argv;
    var argc: nat := args.argc;
    var registry := st.registry;
    var store := st.store;
    ghost var stop := StopIndex(argv, argc, 1, consumeHyphen);

    var argIdx: nat := 1;
    while argIdx < argc
      invariant 1 <= argIdx <= argc
      invariant StopIndex(argv, argc, argIdx, consumeHyphen) == stop
      invariant Valid(State(registry, store))
      invariant State(registry, store) == ExamineAll(st, FlagNames(argv[1..argIdx]))
      decreases argc - argIdx
    {
      var arg := argv[argIdx];
      if |arg| == 0 {
        break;
      }
      if !consumeHyphen && |arg| == 1 {
        break;
      }
      if arg[0] != '-' || (|arg| > 1 && arg[1] == '-') {
        break;
      }
      var name := arg[1..];
      registry, store := MatchToken(registry, store, name);

      ExamineOneMore(st, argv, argIdx);
      argIdx := argIdx + 1;
    }
    assert argIdx == stop;

    parsed := argIdx - 1;
    rest := Args(argc - argIdx, argv[argIdx..]);
    out := State(registry, store);
  }
}
