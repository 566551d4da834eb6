/** What `nob_cmd_flags_parse` does to the registry and to the booleans it
    points at, stated over a run of examined tokens and then over a whole call. */
module ParseLemmas {
  import opened DynArray
  import opened CmdFlags
  import opened FlagParse

  /** Examining tokens one more at the end is one more `Examine` step. */
  lemma {:induction false} ExamineAllSnoc(st: State, names: seq<string>, x: string)
    requires Valid(st)
    ensures ExamineAll(st, names + [x]) == Examine(ExamineAll(st, names), x)
    decreases |names|
  {
    if names == [] {
      assert names + [x] == [x];
      assert [x][1..] == [];
    } else {
      assert (names + [x])[1..] == names[1..] + [x];
      ExamineAllSnoc(Examine(st, names[0]), names[1..], x);
    }
  }

  /** Each examined token removes at most one descriptor: the live registry only
      loses descriptors, at most one per token, and never gains any. */
  lemma {:induction false} ExamineAllShrinks(st: State, names: seq<string>)
    requires Valid(st)
    ensures multiset(ExamineAll(st, names).registry) <= multiset(st.registry)
    ensures |st.registry| - |ExamineAll(st, names).registry| <= |names|
    decreases |names|
  {
    if names != [] {
      ExamineAllShrinks(Examine(st, names[0]), names[1..]);
    }
  }

  /** Some descriptor that left (present in `before`, gone from `after`)
      writes boolean `h`. */
  predicate RemovedWrites(before: Registry, after: Registry, h: Handle)
  {
    exists d :: d in multiset(before) - multiset(after) && d.value == h
  }

  /** Some descriptor that left carries the name `x`. */
  predicate RemovedNamed(before: Registry, after: Registry, x: string)
  {
    exists d :: d in multiset(before) - multiset(after) && d.name == x
  }

  /** A descriptor that left at some stage of a shrinking run has left by its end. */
  lemma LeftByTheEnd(a: Registry, b: Registry, c: Registry, d: Flag)
    requires multiset(c) <= multiset(b) <= multiset(a)
    requires d in multiset(a) - multiset(b) || d in multiset(b) - multiset(c)
    ensures d in multiset(a) - multiset(c)
  {
  }

  /** The descriptor a matching token takes out of the registry. */
  lemma ExamineMatch(st: State, name: string) returns (d: Flag)
    requires Valid(st) && name in NamesOf(st.registry)
    ensures d.name == name && d.value < |st.store|
    ensures d in multiset(st.registry) - multiset(Examine(st, name).registry)
    ensures Examine(st, name).store == st.store[d.value := true]
  {
    d := st.registry[Find(st.registry, name).value];
    assert multiset(Examine(st, name).registry)[d] < multiset(st.registry)[d];
  }

  /** The booleans are only ever set: one that was true stays true, and one that
      changed belongs to a descriptor that left the registry. */
  lemma {:induction false} ExamineAllOnlySets(st: State, names: seq<string>)
    requires Valid(st)
    ensures forall h :: 0 <= h < |st.store| && st.store[h] ==> ExamineAll(st, names).store[h]
    ensures forall h :: 0 <= h < |st.store| && ExamineAll(st, names).store[h] != st.store[h] ==>
              RemovedWrites(st.registry, ExamineAll(st, names).registry, h)
    decreases |names|
  {
    if names != [] {
      var st1 := Examine(st, names[0]);
      var r := ExamineAll(st, names);
      assert r == ExamineAll(st1, names[1..]);
      ExamineAllOnlySets(st1, names[1..]);
      ExamineAllShrinks(st1, names[1..]);
      forall h | 0 <= h < |st.store| && r.store[h] != st.store[h]
        ensures RemovedWrites(st.registry, r.registry, h)
      {
        if st1.store[h] != st.store[h] {
          var d := ExamineMatch(st, names[0]);
          LeftByTheEnd(st.registry, st1.registry, r.registry, d);
        } else {
          var d :| d in multiset(st1.registry) - multiset(r.registry) && d.value == h;
          LeftByTheEnd(st.registry, st1.registry, r.registry, d);
        }
      }
    }
  }

  /** Every descriptor that left the registry was named by an examined token and
      has its boolean set. */
  lemma {:induction false} ExamineAllRemovedAreMatched(st: State, names: seq<string>)
    requires Valid(st)
    ensures forall d :: d in multiset(st.registry) - multiset(ExamineAll(st, names).registry) ==>
              d.name in names
              && d.value < |ExamineAll(st, names).store|
              && ExamineAll(st, names).store[d.value]
    decreases |names|
  {
    if names != [] {
      var st1 := Examine(st, names[0]);
      var r := ExamineAll(st, names);
      assert r == ExamineAll(st1, names[1..]);
      ExamineAllRemovedAreMatched(st1, names[1..]);
      ExamineAllOnlySets(st1, names[1..]);
      forall d | d in multiset(st.registry) - multiset(r.registry)
        ensures d.name in names && d.value < |r.store| && r.store[d.value]
      {
        if d in multiset(st1.registry) - multiset(r.registry) {
          assert d.name in names[1..];
        } else {
          assert multiset(st1.registry)[d] < multiset(st.registry)[d];
          var e := ExamineMatch(st, names[0]);
          assert d == e;
        }
      }
    }
  }

  /** An examined token that names a live descriptor takes one of that name
      out of the registry: no registered flag is skipped over. */
  lemma {:induction false} ExamineAllHitsRegistered(st: State, names: seq<string>)
    requires Valid(st)
    ensures forall x :: x in names && x in NamesOf(st.registry) ==>
              RemovedNamed(st.registry, ExamineAll(st, names).registry, x)
    decreases |names|
  {
    if names != [] {
      var st1 := Examine(st, names[0]);
      var r := ExamineAll(st, names);
      assert r == ExamineAll(st1, names[1..]);
      ExamineAllHitsRegistered(st1, names[1..]);
      ExamineAllShrinks(st1, names[1..]);
      forall x | x in names && x in NamesOf(st.registry)
        ensures RemovedNamed(st.registry, r.registry, x)
      {
        if x == names[0] {
          var d := ExamineMatch(st, x);
          LeftByTheEnd(st.registry, st1.registry, r.registry, d);
        } else {
          assert x in names[1..];
          StillNamed(st, names[0], x);
          var d :| d in multiset(st1.registry) - multiset(r.registry) && d.name == x;
          LeftByTheEnd(st.registry, st1.registry, r.registry, d);
        }
      }
    }
  }

  /** Examining one name leaves every other registered name registered. */
  lemma StillNamed(st: State, name: string, x: string)
    requires Valid(st) && x in NamesOf(st.registry) && x != name
    ensures x in NamesOf(Examine(st, name).registry)
  {
  }

  /** With unique names, examining a name removes exactly the descriptor of
      that name and keeps names unique. */
  lemma ExamineUniqueRegistry(st: State, name: string)
    requires Valid(st) && UniqueNames(st.registry)
    ensures UniqueNames(Examine(st, name).registry)
    ensures forall d :: multiset(Examine(st, name).registry)[d] ==
              (if d.name == name then 0 else multiset(st.registry)[d])
  {
  }

  /** Some live descriptor that writes boolean `h` carries one of `names`. */
  predicate WritesNamed(reg: Registry, names: seq<string>, h: Handle)
  {
    exists d :: d in reg && d.value == h && d.name in names
  }

  /** With unique names, examining a name sets exactly the booleans of the
      descriptors carrying that name. */
  lemma ExamineUniqueStore(st: State, name: string)
    requires Valid(st) && UniqueNames(st.registry)
    ensures forall h :: 0 <= h < |st.store| ==>
              (Examine(st, name).store[h] <==> st.store[h] || WritesNamed(st.registry, [name], h))
  {
  }

  /** Counting a descriptor through two stages of a run: gone if the first
      name or one of the later names is its own, otherwise as many as before. */
  lemma RemovedInTwoSteps(a: Registry, b: Registry, c: Registry, names: seq<string>, d: Flag)
    requires names != []
    requires multiset(b)[d] == (if d.name == names[0] then 0 else multiset(a)[d])
    requires multiset(c)[d] == (if d.name in names[1..] then 0 else multiset(b)[d])
    ensures multiset(c)[d] == (if d.name in names then 0 else multiset(a)[d])
  {
  }

  /** With unique names, a run of examined tokens leaves exactly the
      descriptors none of them named (as a multiset: a permutation of the
      unmatched part of the registry) and keeps names unique. */
  lemma {:induction false} ExamineAllUniqueRegistry(st: State, names: seq<string>)
    requires Valid(st) && UniqueNames(st.registry)
    ensures UniqueNames(ExamineAll(st, names).registry)
    ensures forall d :: multiset(ExamineAll(st, names).registry)[d] ==
              (if d.name in names then 0 else multiset(st.registry)[d])
    decreases |names|
  {
    if names != [] {
      var st1 := Examine(st, names[0]);
      var rest := names[1..];
      var r := ExamineAll(st1, rest);
      assert ExamineAll(st, names) == r;
      ExamineUniqueRegistry(st, names[0]);
      ExamineAllUniqueRegistry(st1, rest);
      forall d: Flag
        ensures multiset(r.registry)[d] == (if d.name in names then 0 else multiset(st.registry)[d])
      {
        RemovedInTwoSteps(st.registry, st1.registry, r.registry, names, d);
      }
    }
  }

  /** One step of the store characterisation: what the first token sets plus
      what the rest set is what the whole run sets. */
  lemma WritesNamedStep(st: State, names: seq<string>, h: Handle)
    requires Valid(st) && UniqueNames(st.registry)
    requires names != [] && h < |st.store|
    ensures var st1 := Examine(st, names[0]);
            (st1.store[h] || WritesNamed(st1.registry, names[1..], h))
            <==> (st.store[h] || WritesNamed(st.registry, names, h))
  {
  }

  /** With unique names, a run of examined tokens sets exactly the booleans of
      the descriptors they named, and leaves every other boolean as it was. */
  lemma {:induction false} ExamineAllUniqueStore(st: State, names: seq<string>)
    requires Valid(st) && UniqueNames(st.registry)
    ensures forall h :: 0 <= h < |st.store| ==>
              (ExamineAll(st, names).store[h] <==> st.store[h] || WritesNamed(st.registry, names, h))
    decreases |names|
  {
    if names != [] {
      var st1 := Examine(st, names[0]);
      assert ExamineAll(st, names) == ExamineAll(st1, names[1..]);
      ExamineUniqueRegistry(st, names[0]);
      ExamineAllUniqueStore(st1, names[1..]);
      forall h | 0 <= h < |st.store| {
        WritesNamedStep(st, names, h);
      }
    }
  }

  /** With unique names, a token naming a flag an earlier token already
      matched is examined but changes nothing. */
  lemma RepeatChangesNothing(st: State, names: seq<string>, x: string)
    requires Valid(st) && UniqueNames(st.registry)
    requires x in names
    ensures ExamineAll(st, names + [x]) == ExamineAll(st, names)
  {
    var r := ExamineAll(st, names);
    ExamineAllSnoc(st, names, x);
    ExamineAllUniqueRegistry(st, names);
  }

  /** How many of the examined tokens found a live descriptor when their turn came. */
  function MatchCount(st: State, names: seq<string>): (n: nat)
    requires Valid(st)
    ensures n <= |names|
    decreases |names|
  {
    if names == [] then 0
    else (if names[0] in NamesOf(st.registry) then 1 else 0) + MatchCount(Examine(st, names[0]), names[1..])
  }

  /** The live count drops by exactly the number of examined tokens that matched. */
  lemma {:induction false} RegistryShrinksByMatches(st: State, names: seq<string>)
    requires Valid(st)
    ensures |ExamineAll(st, names).registry| == |st.registry| - MatchCount(st, names)
    decreases |names|
  {
    if names != [] {
      RegistryShrinksByMatches(Examine(st, names[0]), names[1..]);
    }
  }

  /** A flag-shaped token is `-` followed by the name it asks for. */
  lemma FlagNamesOccur(toks: seq<string>, x: string, consumeHyphen: bool)
    requires forall k :: 0 <= k < |toks| ==> FlagShaped(toks[k], consumeHyphen)
    ensures x in FlagNames(toks) <==> "-" + x in toks
  {
    var names := FlagNames(toks);
    if x in names {
      var k :| 0 <= k < |names| && names[k] == x;
      assert toks[k] == "-" + x;
    }
    if "-" + x in toks {
      var k :| 0 <= k < |toks| && toks[k] == "-" + x;
      assert names[k] == x;
    }
  }

  /** The registry and booleans a call leaves are those of examining, in
      order, the names of the tokens it examined. */
  lemma ParseState(st: State, args: Args, consumeHyphen: bool)
    requires args.argc <= |args.argv| && Valid(st)
    requires args.argc > 0
    ensures var r := Parse(st, args, consumeHyphen);
            r.state == ExamineAll(st, FlagNames(args.argv[1..r.examined + 1]))
  {
  }

  /** The tokens a call examined, taken as a run, are all flag-shaped. */
  lemma ExaminedAreFlagShaped(st: State, args: Args, consumeHyphen: bool)
    requires args.argc <= |args.argv| && Valid(st)
    requires args.argc > 0
    ensures var r := Parse(st, args, consumeHyphen);
            var toks := args.argv[1..r.examined + 1];
            forall i :: 0 <= i < |toks| ==> FlagShaped(toks[i], consumeHyphen)
  {
  }

  /** For any registry, a call only removes descriptors and only sets booleans:
      at most one descriptor per examined token leaves the registry, nothing is
      added or duplicated, each one that left was named by an examined token
      and has its boolean set, a boolean never goes from true to false, one
      that changed belongs to a descriptor that left, and every examined token
      naming a registered flag took one descriptor of that name out. */
  lemma ParseEffect(st: State, args: Args, consumeHyphen: bool)
    requires args.argc <= |args.argv| && Valid(st)
    requires args.argc > 0
    ensures var r := Parse(st, args, consumeHyphen);
            var names := FlagNames(args.argv[1..r.examined + 1]);
            var removed := multiset(st.registry) - multiset(r.state.registry);
            multiset(r.state.registry) <= multiset(st.registry)
            && |st.registry| - |r.state.registry| <= r.examined
            && (forall d :: d in removed ==> d.name in names && d.value < |r.state.store| && r.state.store[d.value])
            && (forall h :: 0 <= h < |st.store| && st.store[h] ==> r.state.store[h])
            && (forall h :: 0 <= h < |st.store| && r.state.store[h] != st.store[h] ==>
                  RemovedWrites(st.registry, r.state.registry, h))
            && (forall x :: x in names && x in NamesOf(st.registry) ==>
                  RemovedNamed(st.registry, r.state.registry, x))
  {
    var r := Parse(st, args, consumeHyphen);
    var names := FlagNames(args.argv[1..r.examined + 1]);
    ParseState(st, args, consumeHyphen);
    ExamineAllShrinks(st, names);
    ExamineAllOnlySets(st, names);
    ExamineAllRemovedAreMatched(st, names);
    ExamineAllHitsRegistered(st, names);
  }

  /** The live count drops by exactly the number of examined tokens that
      matched; the returned count is the number examined, matched or not. */
  lemma ParseCountsMatches(st: State, args: Args, consumeHyphen: bool)
    requires args.argc <= |args.argv| && Valid(st)
    requires args.argc > 0
    ensures var r := Parse(st, args, consumeHyphen);
            var names := FlagNames(args.argv[1..r.examined + 1]);
            |r.state.registry| == |st.registry| - MatchCount(st, names)
            && MatchCount(st, names) <= r.examined
  {
    var r := Parse(st, args, consumeHyphen);
    var names := FlagNames(args.argv[1..r.examined + 1]);
    ParseState(st, args, consumeHyphen);
    RegistryShrinksByMatches(st, names);
  }

  /** With unique names, the registry a call leaves is a permutation of the
      original one minus exactly the descriptors an examined token named, and
      a boolean ends true exactly when it was true or belongs to a descriptor
      an examined token named. */
  lemma ParseUniqueNames(st: State, args: Args, consumeHyphen: bool)
    requires args.argc <= |args.argv| && Valid(st)
    requires UniqueNames(st.registry)
    requires args.argc > 0
    ensures var r := Parse(st, args, consumeHyphen);
            var names := FlagNames(args.argv[1..r.examined + 1]);
            UniqueNames(r.state.registry)
            && (forall d :: multiset(r.state.registry)[d] ==
                  (if d.name in names then 0 else multiset(st.registry)[d]))
            && (forall h :: 0 <= h < |st.store| ==>
                  (r.state.store[h] <==>
                    st.store[h] || WritesNamed(st.registry, names, h)))
  {
    var r := Parse(st, args, consumeHyphen);
    var names := FlagNames(args.argv[1..r.examined + 1]);
    ParseState(st, args, consumeHyphen);
    ExamineAllUniqueRegistry(st, names);
    ExamineAllUniqueStore(st, names);
  }

  /** With unique names and one boolean per flag, starting from all-false
      booleans, a run of examined tokens sets a flag's boolean exactly when one
      of them named it, and removes the flag exactly then. */
  lemma ExamineAllSetsExactlyNamed(st: State, names: seq<string>, k: nat)
    requires Valid(st) && UniqueNames(st.registry) && DistinctHandles(st.registry)
    requires forall h :: 0 <= h < |st.store| ==> !st.store[h]
    requires k < |st.registry|
    ensures ExamineAll(st, names).store[st.registry[k].value] <==> st.registry[k].name in names
    ensures st.registry[k] in ExamineAll(st, names).registry <==> st.registry[k].name !in names
  {
    var reg := st.registry;
    var r := ExamineAll(st, names);
    ExamineAllUniqueRegistry(st, names);
    ExamineAllUniqueStore(st, names);
    assert reg[k] in reg;
    forall d: Flag | d in reg && d.value == reg[k].value ensures d == reg[k] {
      var j :| 0 <= j < |reg| && reg[j] == d;
    }
    assert multiset(reg)[reg[k]] > 0;
    assert reg[k] in r.registry <==> multiset(r.registry)[reg[k]] > 0;
  }

  /** `ExamineAllSetsExactlyNamed` for every flag at once, for the names a run
      of flag-shaped tokens asks for, stated in terms of the tokens themselves. */
  lemma TokensSetExactlyNamed(st: State, toks: seq<string>, consumeHyphen: bool)
    requires Valid(st) && UniqueNames(st.registry) && DistinctHandles(st.registry)
    requires forall h :: 0 <= h < |st.store| ==> !st.store[h]
    requires forall i :: 0 <= i < |toks| ==> FlagShaped(toks[i], consumeHyphen)
    ensures var out := ExamineAll(st, FlagNames(toks));
            forall k :: 0 <= k < |st.registry| ==>
              (out.store[st.registry[k].value] <==> "-" + st.registry[k].name in toks)
              && (st.registry[k] in out.registry <==> "-" + st.registry[k].name !in toks)
  {
    var out := ExamineAll(st, FlagNames(toks));
    forall k | 0 <= k < |st.registry|
      ensures (out.store[st.registry[k].value] <==> "-" + st.registry[k].name in toks)
              && (st.registry[k] in out.registry <==> "-" + st.registry[k].name !in toks)
    {
      FlagNamesOccur(toks, st.registry[k].name, consumeHyphen);
      ExamineAllSetsExactlyNamed(st, FlagNames(toks), k);
    }
  }

  /** With unique names, one boolean per flag, and every boolean false before
      the call, a flag's boolean is true afterwards exactly when `-name` was
      among the examined tokens; the flag is then gone from the registry, and
      otherwise it is still there. */
  lemma ParseSetsExactlyNamed(st: State, args: Args, consumeHyphen: bool)
    requires args.argc <= |args.argv| && Valid(st)
    requires UniqueNames(st.registry) && DistinctHandles(st.registry)
    requires forall h :: 0 <= h < |st.store| ==> !st.store[h]
    requires args.argc > 0
    ensures var r := Parse(st, args, consumeHyphen);
            var toks := args.argv[1..r.examined + 1];
            forall k :: 0 <= k < |st.registry| ==>
              (r.state.store[st.registry[k].value] <==> "-" + st.registry[k].name in toks)
              && (st.registry[k] in r.state.registry <==> "-" + st.registry[k].name !in toks)
  {
    var r := Parse(st, args, consumeHyphen);
    var toks := args.argv[1..r.examined + 1];
    ParseState(st, args, consumeHyphen);
    ExaminedAreFlagShaped(st, args, consumeHyphen);
    TokensSetExactlyNamed(st, toks, consumeHyphen);
  }
}
