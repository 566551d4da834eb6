/** Concrete calls of `nob_cmd_flags_parse` on small argument lists, with the
    registry built by `nob_cmd_flags_add`. Handle 0 is `debug`, handle 1 is
    `release`. */
module Scenarios {
  import opened DynArray
  import opened CmdFlags
  import opened FlagParse
  import opened ParseLemmas

  function DebugAndRelease(): Registry
  {
    Add(Add([], "debug", 0), "release", 1)
  }

  /** `-debug` against the two-flag registry: `debug` is found first, its
      boolean is set, and `release` is swapped into its slot. */
  lemma DebugMatched()
    ensures Examine(State(DebugAndRelease(), [false, false]), "debug")
            == State([Flag("release", 1)], [true, false])
  {
  }

  /** A `--` token stops the scan and stays in the remainder with everything
      after it: only `-debug` is examined. */
  lemma StopsAtDoubleDash()
    ensures var r := Parse(State(DebugAndRelease(), [false, false]),
                           Args(4, ["prog", "-debug", "--", "-release"]), false);
            r.examined == 1
            && r.args == Args(2, ["--", "-release"])
            && r.state == State([Flag("release", 1)], [true, false])
  {
    var st := State(DebugAndRelease(), [false, false]);
    var argv := ["prog", "-debug", "--", "-release"];
    assert FlagShaped(argv[1], false) && !FlagShaped(argv[2], false);
    assert StopIndex(argv, 4, 1, false) == 2;
    assert FlagNames(argv[1..2]) == ["debug"];
    DebugMatched();
    assert ExamineAll(st, ["debug"]) == ExamineAll(Examine(st, "debug"), []);
  }

  /** Without `NOB_CMD_FLAGS_CONSUME_HYPHEN` a lone `-` stops the scan and stays
      in the remainder. */
  lemma LoneHyphenStops()
    ensures Parse(State(DebugAndRelease(), [false, false]), Args(2, ["prog", "-"]), false)
            == Outcome(0, Args(1, ["-"]), State(DebugAndRelease(), [false, false]))
  {
    var argv := ["prog", "-"];
    assert !FlagShaped(argv[1], false);
    assert StopIndex(argv, 2, 1, false) == 1;
    assert FlagNames(argv[1..1]) == [];
  }

  /** With `NOB_CMD_FLAGS_CONSUME_HYPHEN`, a lone `-` is examined and matches
      the descriptor registered by `nob_cmd_flags_add_empty`. */
  lemma LoneHyphenMatchesEmptyName()
    ensures Parse(State(AddEmpty([], 0, true), [false]), Args(2, ["prog", "-"]), true)
            == Outcome(1, Args(0, []), State([], [true]))
  {
    var st := State(AddEmpty([], 0, true), [false]);
    var argv := ["prog", "-"];
    assert FlagShaped(argv[1], true);
    assert StopIndex(argv, 2, 1, true) == 2;
    assert FlagNames(argv[1..2]) == [""];
    assert Find(st.registry, "") == Some(0);
    assert Examine(st, "") == State([], [true]);
    assert ExamineAll(st, [""]) == ExamineAll(State([], [true]), []);
  }

  /** For any registry: in hyphen-consuming mode a lone `-` is examined, and
      the name it asks for finds a descriptor once `nob_cmd_flags_add_empty`
      has registered one; in default mode it is not examined at all. */
  lemma LoneHyphenFindsEmpty(reg: Registry, value: Handle)
    ensures FlagShaped("-", true) && !FlagShaped("-", false)
    ensures Find(AddEmpty(reg, value, true), FlagName("-")).Some?
  {
  }

  /** An unknown flag is examined and dropped from the argument list without
      effect, and counts in the return value: two tokens are examined while
      only one matched. */
  lemma UnknownFlagConsumed()
    ensures var st := State(Add([], "debug", 0), [false]);
            var r := Parse(st, Args(3, ["prog", "-unknown", "-debug"]), false);
            r == Outcome(2, Args(0, []), State([], [true]))
            && MatchCount(st, ["unknown", "debug"]) == 1
  {
    var st := State(Add([], "debug", 0), [false]);
    var argv := ["prog", "-unknown", "-debug"];
    assert FlagShaped(argv[1], false) && FlagShaped(argv[2], false);
    assert StopIndex(argv, 3, 1, false) == 3;
    assert FlagNames(argv[1..3]) == ["unknown", "debug"];
    assert "unknown" !in NamesOf(st.registry);
    assert Find(st.registry, "debug") == Some(0);
    assert Examine(st, "unknown") == st;
    assert Examine(st, "debug") == State([], [true]);
  }

  /** `-debug -debug`: the second occurrence is examined and consumed but
      finds nothing left to match. */
  lemma RepeatedFlag()
    ensures var st := State(Add([], "debug", 0), [false]);
            Parse(st, Args(3, ["prog", "-debug", "-debug"]), false) == Outcome(2, Args(0, []), State([], [true]))
  {
    var st := State(Add([], "debug", 0), [false]);
    var argv := ["prog", "-debug", "-debug"];
    assert FlagShaped(argv[1], false) && FlagShaped(argv[2], false);
    assert StopIndex(argv, 3, 1, false) == 3;
    assert FlagNames(argv[1..3]) == ["debug", "debug"];
    assert Find(st.registry, "debug") == Some(0);
    assert Examine(st, "debug") == State([], [true]);
    assert "debug" !in NamesOf([]);
  }

  /** Once a call has used up the argument list, calling again returns 0 and
      leaves the registry, the booleans and the argument view as they are. */
  lemma ParseAgainOnExhaustedList(st: State, args: Args, consumeHyphen: bool)
    requires args.argc <= |args.argv| && Valid(st)
    requires Parse(st, args, consumeHyphen).args.argc <= 0
    ensures var r := Parse(st, args, consumeHyphen);
            Parse(r.state, r.args, consumeHyphen) == Outcome(0, r.args, r.state)
  {
  }
}
