# nobflag.h in Dafny

`nobflag.h` extends the `nob.h` build library with two things: a
`nob_da_swap` macro that exchanges two elements of a dynamic array, and a
boolean-flag parser. A build script registers named flags, each bound to a
`bool` it owns (`nob_cmd_flags_add`, and `nob_cmd_flags_add_empty` when
`NOB_CMD_FLAGS_CONSUME_HYPHEN` is defined). Then `nob_cmd_flags_parse` skips
the program name and scans `argv` while the tokens look like `-name`. For
each such token it sets the boolean of the first live descriptor with that
name and swap-removes that descriptor from the registry. At the end it
advances `argc`/`argv` past every token it examined and returns how many it
examined.

The model is functional:

- `dyn_array.dfy` (`DynArray`): `Swap` is `nob_da_swap` on the live prefix
  `items[0..count)`. `SwapRemove` is the swap-to-last-then-decrement removal
  that the parser performs.
- `cmd_flags.dfy` (`CmdFlags`): the `Flag` descriptor and the `Registry`.
  A `bool *` is a `Handle`, an index into a caller-owned `seq<bool>`. This
  module also holds registration (`Add`, `AddEmpty`) and the first-match
  search of the parser's inner loop (`FindFrom`, `Find`).
- `flag_parse.dfy` (`FlagParse`): the token test `FlagShaped`, one examined
  token (`Examine`), a run of them (`ExamineAll`), the scan's stopping index
  (`StopIndex`) and the whole call (`Parse`). The C `#ifdef` on
  `NOB_CMD_FLAGS_CONSUME_HYPHEN` becomes the parameter `consumeHyphen`.
- `parse_lemmas.dfy` (`ParseLemmas`): what a call does to the registry and
  to the booleans. One set of lemmas holds for any registry. A stronger,
  exact set holds when names are unique.
- `parse_loop.dfy` (`ParseLoop`): the C control flow written as a method.
  An outer loop breaks at the first token that is not flag-shaped. An inner
  loop stops at the first match. The method is proved to compute exactly
  `FlagParse.Parse`.
- `scenarios.dfy` (`Scenarios`): concrete calls, such as `--` ending the
  scan, a lone `-` in both modes, and an unknown or repeated flag.

Where the documentation and the code differ, the model follows the code:

- The comment at nobflag.h:36 says the parser returns "the amount of items
  matched". The code returns `arg_idx - 1` (nobflag.h:145), which is the
  number of tokens examined, unknown flags included. `Parse` returns the
  examined count. `ParseCountsMatches` and `Scenarios.UnknownFlagConsumed`
  show that the two counts differ.
- `nob_da_swap` is an exchange (nobflag.h:72-80), not a removal. The
  removal is the extra `count--` at nobflag.h:137, which is modelled by
  `SwapRemove`.

## Model

| member | source | states |
|---|---|---|
| DynArray.Swap | nobflag.h:72-80 | `count` ends where it started; `items[i]` and `items[j]` are exchanged; every other live index keeps its element |
| DynArray.SwapPermutes | nobflag.h:72-80 | the swap only rearranges: the multiset of live elements is unchanged |
| DynArray.SwapInvolution | nobflag.h:72-80 | swapping the same two positions twice restores the array |
| DynArray.SwapRemove | nobflag.h:136-137 | swap to the last live slot then `count--`: one element fewer, the former last element now sits at `i`, every other index keeps its element, and the multiset loses exactly `items[i]` |
| CmdFlags.Add | nobflag.h:93-97 | registration appends one descriptor binding the name to the handle and leaves the earlier descriptors in place |
| CmdFlags.AddEmpty | nobflag.h:99-105 | available only in hyphen-consuming mode; appends a descriptor with the empty name |
| CmdFlags.FindFrom | nobflag.h:132-134 | the inner search returns the first index at or after `from` whose descriptor has the name, and returns none exactly when no such index exists |
| CmdFlags.Find | nobflag.h:132-138 | the descriptor a token matches is the first live one with that name; there is none exactly when the name is not registered |
| CmdFlags.AddThenFind | nobflag.h:93-97 | a registered name is always found afterwards: by the new descriptor when the name is new, otherwise by the earlier one |
| FlagParse.FlagShaped | nobflag.h:120-130 | a token is examined rather than stopping the scan exactly when it is non-empty, has a second character unless hyphen-consuming, starts with `-`, and does not start with `--` |
| FlagParse.FlagShapedIsNoBreak | nobflag.h:120-130 | for a NUL-free token, `FlagShaped` holds exactly when none of the three `break` tests fires, with `arg[i]` read as the terminator past the end |
| FlagParse.FlagName | nobflag.h:131 | `arg++` drops the first character: putting it back in front of the name gives the token |
| FlagParse.Examine | nobflag.h:131-140 | a token naming no live flag changes nothing; otherwise the first descriptor with that name leaves the registry (count minus one, multiset minus that descriptor) and exactly its boolean is set to true |
| FlagParse.ExamineAll | nobflag.h:118-141 | a run of examined tokens, each against the registry the earlier ones left, keeps every handle in range and the store size, and removes at most one descriptor per token and adds none |
| FlagParse.StopIndex | nobflag.h:117-130 | the scan stops at the first index that is `argc` or holds a token that is not flag-shaped (empty, one character in default mode, not starting with `-`, or starting with `--`); every token before it is flag-shaped |
| FlagParse.Parse | nobflag.h:111-146 | when `argc <= 0` it returns 0 and changes nothing; otherwise, with `n` returned, `argc` drops by `n+1`, the remaining list is `argv[n+1..]`, tokens `1..n` are flag-shaped, and token `n+1` (if below `argc`) is not |
| ParseLemmas.ExamineAllSnoc | nobflag.h:118-141 | examining one more token at the end of a run is one more single-token step |
| ParseLemmas.ExamineAllShrinks | nobflag.h:132-139 | the registry only loses descriptors (sub-multiset), at most one per examined token |
| ParseLemmas.ExamineAllOnlySets | nobflag.h:135 | a boolean that was true stays true; a boolean that changed belongs to a descriptor that left the registry |
| ParseLemmas.ExamineAllRemovedAreMatched | nobflag.h:132-137 | every descriptor that left was named by an examined token, and its boolean is true |
| ParseLemmas.ExamineAllHitsRegistered | nobflag.h:132-139 | an examined token whose name was registered took a descriptor of that name out of the registry |
| ParseLemmas.ExamineUniqueRegistry | nobflag.h:132-139 | with unique names, one token removes exactly the descriptor of its name and names stay unique |
| ParseLemmas.ExamineUniqueStore | nobflag.h:135 | with unique names, one token sets exactly the booleans of the descriptors carrying its name |
| ParseLemmas.ExamineAllUniqueRegistry | nobflag.h:132-139 | with unique names, the final registry is, as a multiset, the original minus exactly the descriptors some examined token named |
| ParseLemmas.ExamineAllUniqueStore | nobflag.h:135 | with unique names, a boolean ends true exactly when it was true or a descriptor writing it was named by an examined token |
| ParseLemmas.RepeatChangesNothing | nobflag.h:132-139 | with unique names, a token repeating an already-examined name changes neither the registry nor any boolean |
| ParseLemmas.RegistryShrinksByMatches | nobflag.h:136-137 | the live count drops by exactly the number of examined tokens that found a live descriptor |
| ParseLemmas.ParseState | nobflag.h:117-145 | the registry and booleans a call leaves are exactly those of examining, in order, the names of the tokens it examined and consumed |
| ParseLemmas.ParseEffect | nobflag.h:111-146 | for any registry, a call removes at most one descriptor per examined token and adds none; each removed descriptor was named by an examined token and has its boolean set; no boolean goes from true to false; a changed boolean belongs to a removed descriptor; every examined token naming a registered flag removed one |
| ParseLemmas.ParseCountsMatches | nobflag.h:132-145 | the registry shrinks by exactly the number of examined tokens that matched, and that number is at most the count the call returns (which `Parse` states is the number examined) |
| ParseLemmas.ParseUniqueNames | nobflag.h:111-146 | with unique names, the registry left by a call is a permutation of the original minus exactly the named descriptors, and the booleans set are exactly those of the named descriptors |
| ParseLemmas.ExamineAllSetsExactlyNamed | nobflag.h:132-139 | with unique names, one boolean per flag and all booleans false, a flag's boolean ends true exactly when an examined token named it, and the flag left the registry exactly then |
| ParseLemmas.ParseSetsExactlyNamed | nobflag.h:111-146 | with unique names, one boolean per flag and all booleans false, a flag's boolean is true after the call exactly when `-name` was among the examined tokens, and the flag is still registered exactly when it was not |
| ParseLoop.MatchToken | nobflag.h:132-140 | the inner loop, with its first-match `break`, has the same effect as one examined token |
| ParseLoop.ParseInPlace | nobflag.h:111-146 | the C loop structure, breaking at the first non-flag token, returns the same count, argument view, registry and booleans as `Parse` |
| Scenarios.DebugMatched | nobflag.h:132-139 | `-debug` against `debug, release`: `debug`'s boolean is set and `release` is swapped into slot 0 |
| Scenarios.StopsAtDoubleDash | nobflag.h:128-130 | `prog -debug -- -release`: one token examined, `debug` set and removed, `release` kept, remainder `-- -release` |
| Scenarios.LoneHyphenStops | nobflag.h:123-127 | in default mode a lone `-` stops the scan and stays in the remainder |
| Scenarios.LoneHyphenMatchesEmptyName | nobflag.h:99-105 | in hyphen-consuming mode a lone `-` is examined and matches the empty-named descriptor |
| Scenarios.LoneHyphenFindsEmpty | nobflag.h:99-105 | for any registry, a lone `-` is examined only in hyphen-consuming mode, and there the name it asks for is found once `nob_cmd_flags_add_empty` has run |
| Scenarios.UnknownFlagConsumed | nobflag.h:132-145 | `prog -unknown -debug`: two tokens examined and consumed while only one matched |
| Scenarios.RepeatedFlag | nobflag.h:132-139 | `prog -debug -debug`: both tokens consumed, only the first matched |
| Scenarios.ParseAgainOnExhaustedList | nobflag.h:113-115 | once the argument list is used up, a further call returns 0 and changes nothing |

## Left out

- `nob_da_append` growth, `capacity` and reallocation: `nob.h` is not part of this model. Appending is a sequence append.
- The `NOB_ASSERT` null-pointer check (nobflag.h:112): the registry, `argc` and `argv` are values here and cannot be null. Two demands the C code makes of its caller are kept as preconditions. `argv` holds at least `argc` tokens. `Valid(st)` holds, meaning every descriptor's handle indexes the store, which is how the model says that every `bool *` in the registry points at a writable `bool`.
- The stale scratch slot past `count` that `nob_da_swap` writes, and the example's reading of `items[count .. count+parsed)` (nobflag.h:47-48). These are buffer internals outside the live prefix, and later swaps overwrite that tail. The model states properties of the live registry only.
- C string mechanics (NUL terminator, `arg++`, `strcmp`): a token is its characters before the NUL, stripping is `tok[1..]`, and comparison is `==`. Tokens and names are assumed NUL-free, as every C string is. A Dafny string with an embedded `'\0'` has no C counterpart, and on one such as `"-\0"` the model examines a token that C would read as `"-"` and stop at. `FlagShapedIsNoBreak` states the agreement with the C tests for NUL-free tokens only.
- The stringification `#flag` of `nob_cmd_flags_add`: registration takes the name explicitly.
- The prefix-stripping aliases (nobflag.h:149-158): they only rename.
- The documentation example `main` (nobflag.h:20-62): logging, process execution and `NOB_GO_REBUILD_URSELF`.
- Integer widths of `int *argc` and `size_t arg_idx`: integers are unbounded. Because `arg_idx <= argc`, no wrap-around occurs.
- Which of several same-named descriptors a token hits: the model takes the first live one in the current order, as the code does. For arbitrary registries the lemmas claim only that a token removes at most one descriptor. The exact characterisations assume unique names.
