/** `nob_cmd_flags_parse`: scans the argument list after the program name while
    tokens look like `-name`, marks and removes the first live descriptor each
    such token names, and hands back the unexamined tail of the list. */
module FlagParse {
  import opened DynArray
  import opened CmdFlags

  /** The registry together with the caller-owned booleans its handles point to. */
  datatype State = State(registry: Registry, store: seq<bool>)

  /** Every live descriptor points at a boolean that exists. */
  predicate Valid(st: State)
  {
    HandlesIn(st.registry, |st.store|)
  }

  /** The caller's view of the argument list: `*argc` and the tokens from `*argv` on. */
  datatype Args = Args(argc: int, argv: seq<string>)

  /** What a call leaves behind: the returned count, the caller's advanced
      argument view, and the registry and booleans afterwards. */
  datatype Outcome = Outcome(examined: nat, args: Args, state: State)

  /** A token the scan examines instead of stopping at. It is non-empty; unless
      `NOB_CMD_FLAGS_CONSUME_HYPHEN` is defined it has at least two characters;
      it starts with `-`; and its second character, if any, is not `-`. A token
      stands for its characters before the terminating NUL, so for a
      one-character token the C test `arg[1] == '-'` reads the terminator. */
  predicate FlagShaped(tok: string, consumeHyphen: bool)
  {
    |tok| != 0
    && (consumeHyphen || |tok| != 1)
    && tok[0] == '-'
    && !(|tok| > 1 && tok[1] == '-')
  }

  /** A token C can pass in `argv`: no character of it is the terminator. */
  predicate NulFree(tok: string)
  {
    forall i :: 0 <= i < |tok| ==> tok[i] != '\0'
  }

  /** `arg[i]` in C: the character at `i`, and the terminating NUL at `|tok|`. */
  function CharAt(tok: string, i: nat): char
  {
    if i < |tok| then tok[i] else '\0'
  }

  /** For a token C can pass, `FlagShaped` is exactly "none of the three
      `break` tests of the scan fires": not `!arg[0]`, not `!arg[1]` unless
      hyphen-consuming, and not `arg[0] != '-' || arg[1] == '-'`. */
  lemma FlagShapedIsNoBreak(tok: string, consumeHyphen: bool)
    requires NulFree(tok)
    ensures FlagShaped(tok, consumeHyphen) <==>
              CharAt(tok, 0) != '\0'
              && (consumeHyphen || CharAt(tok, 1) != '\0')
              && !(CharAt(tok, 0) != '-' || CharAt(tok, 1) == '-')
  {
  }

  /** The name a flag-shaped token asks for, what `arg++` leaves: the token
      after its leading character. Putting that character back gives the
      token. */
  function FlagName(tok: string): (name: string)
    ensures |tok| != 0 ==> [tok[0]] + name == tok
    ensures |tok| == 0 ==> name == tok
  {
    if |tok| == 0 then tok else tok[1..]
  }

  /** The names asked for by a run of tokens, in order. */
  function FlagNames(toks: seq<string>): (names: seq<string>)
    ensures |names| == |toks|
    ensures forall k :: 0 <= k < |toks| ==> names[k] == FlagName(toks[k])
  {
    seq(|toks|, k requires 0 <= k < |toks| => FlagName(toks[k]))
  }

  /** One examined token: if a live descriptor carries `name`, the first one has
      its boolean set to true and leaves the live registry; otherwise nothing
      changes. */
  function Examine(st: State, name: string): (r: State)
    requires Valid(st)
    ensures Valid(r) && |r.store| == |st.store|
    ensures name !in NamesOf(st.registry) ==> r == st
    ensures name in NamesOf(st.registry) ==>
              var d := st.registry[Find(st.registry, name).value];
              d.name == name
              && |r.registry| == |st.registry| - 1
              && multiset(r.registry) == multiset(st.registry) - multiset{d}
              && r.store == st.store[d.value := true]
  {
    match Find(st.registry, name)
    case None => st
    case Some(i) =>
      var d := st.registry[i];
      State(SwapRemove(st.registry, i), st.store[d.value := true])
  }

  /** A run of examined tokens, one after the other, each against the registry
      the previous ones left. */
  function ExamineAll(st: State, names: seq<string>): (r: State)
    requires Valid(st)
    ensures Valid(r) && |r.store| == |st.store|
    ensures |st.registry| - |names| <= |r.registry| <= |st.registry|
    decreases |names|
  {
    if names == [] then st else ExamineAll(Examine(st, names[0]), names[1..])
  }

  /** The index the `for` loop stops at, scanning from `idx`: the first
      token that is not flag-shaped, or `argc`. */
  function StopIndex(argv: seq<string>, argc: nat, idx: nat, consumeHyphen: bool): (stop: nat)
    requires idx <= argc <= |argv|
    decreases argc - idx
    ensures idx <= stop <= argc
    ensures forall k :: idx <= k < stop ==> FlagShaped(argv[k], consumeHyphen)
    ensures stop < argc ==> !FlagShaped(argv[stop], consumeHyphen)
  {
    if idx < argc && FlagShaped(argv[idx], consumeHyphen) then
      StopIndex(argv, argc, idx + 1, consumeHyphen)
    else
      idx
  }

  /** `nob_cmd_flags_parse(flags, &argc, &argv)`. The null-pointer assertion
      has no counterpart: the three arguments are values here. The C code
      reads `argv[1..argc)`, so `argv` must hold at least `argc` tokens. */
  function Parse(st: State, args: Args, consumeHyphen: bool): (r: Outcome)
    requires args.argc <= |args.argv|
    requires Valid(st)
    ensures Valid(r.state) && |r.state.store| == |st.store|
    ensures args.argc <= 0 ==> r == Outcome(0, args, st)
    ensures args.argc > 0 ==>
              r.examined < args.argc
              && r.args.argc == args.argc - (r.examined + 1)
              && r.args.argv == args.argv[r.examined + 1..]
    ensures args.argc > 0 ==>
              forall k :: 1 <= k <= r.examined ==> FlagShaped(args.argv[k], consumeHyphen)
    ensures args.argc > 0 && r.examined + 1 < args.argc ==>
              !FlagShaped(args.argv[r.examined + 1], consumeHyphen)
  {
    if args.argc <= 0 then
      Outcome(0, args, st)
    else
      var stop := StopIndex(args.argv, args.argc, 1, consumeHyphen);
      var names := FlagNames(args.argv[1..stop]);
      Outcome(stop - 1, Args(args.argc - stop, args.argv[stop..]), ExamineAll(st, names))
  }
}
