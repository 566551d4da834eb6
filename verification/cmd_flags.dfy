/** The flag registry of nobflag.h: `Nob_Cmd_Flag` descriptors, the live
    registry `items[0..count)` of a `Nob_Cmd_Flags`, registration, and the
    first-match search that parsing performs over it. */
module CmdFlags {

  datatype Option<T> = None | Some(value: T)

  /** A `bool *` into storage the caller owns: an index into a `seq<bool>`. */
  type Handle = nat

  /** `Nob_Cmd_Flag`: a name and the boolean the flag writes when matched. */
  datatype Flag = Flag(name: string, value: Handle)

  /** The live descriptors of a `Nob_Cmd_Flags`, `items[0..count)`. */
  type Registry = seq<Flag>

  /** Every descriptor points into a store of `size` booleans. */
  predicate HandlesIn(reg: Registry, size: nat)
  {
    forall k :: 0 <= k < |reg| ==> reg[k].value < size
  }

  /** No two live descriptors carry the same name. */
  predicate UniqueNames(reg: Registry)
  {
    forall a, b :: 0 <= a < |reg| && 0 <= b < |reg| && reg[a].name == reg[b].name ==> a == b
  }

  /** No two live descriptors write the same boolean. */
  predicate DistinctHandles(reg: Registry)
  {
    forall a, b :: 0 <= a < |reg| && 0 <= b < |reg| && reg[a].value == reg[b].value ==> a == b
  }

  /** The names registered in `reg`. */
  function NamesOf(reg: Registry): set<string>
  {
    set k | 0 <= k < |reg| :: reg[k].name
  }

  /** `nob_cmd_flags_add(flags, flag)`: appends the descriptor `(name, &flag)`.
      The macro stringifies the variable for the name; here it is explicit. */
  function Add(reg: Registry, name: string, value: Handle): (r: Registry)
    ensures |r| == |reg| + 1
    ensures r[..|reg|] == reg
    ensures r[|reg|] == Flag(name, value)
  {
    reg + [Flag(name, value)]
  }

  /** `nob_cmd_flags_add_empty(flags, value)`: appends a descriptor with the
      empty name, the one a lone `-` matches. It exists only when
      `NOB_CMD_FLAGS_CONSUME_HYPHEN` is defined. */
  function AddEmpty(reg: Registry, value: Handle, consumeHyphen: bool): (r: Registry)
    requires consumeHyphen
    ensures |r| == |reg| + 1
    ensures r[..|reg|] == reg
    ensures r[|reg|] == Flag("", value)
  {
    Add(reg, "", value)
  }

  /** The inner loop of `nob_cmd_flags_parse` from `from` onwards: the first
      index whose descriptor is named `name`, if any. */
  function FindFrom(reg: Registry, name: string, from: nat): (r: Option<nat>)
    requires from <= |reg|
    decreases |reg| - from
    ensures r.Some? ==> from <= r.value < |reg| && reg[r.value].name == name
    ensures r.Some? ==> forall k :: from <= k < r.value ==> reg[k].name != name
    ensures r.None? <==> forall k :: from <= k < |reg| ==> reg[k].name != name
  {
    if from == |reg| then None
    else if reg[from].name == name then Some(from)
    else FindFrom(reg, name, from + 1)
  }

  /** The first live descriptor named `name`, if any. */
  function Find(reg: Registry, name: string): (r: Option<nat>)
    ensures r.Some? ==> r.value < |reg| && reg[r.value].name == name
    ensures r.Some? ==> forall k :: 0 <= k < r.value ==> reg[k].name != name
    ensures r.None? <==> name !in NamesOf(reg)
  {
    var r := FindFrom(reg, name, 0);
    assert r.None? ==> name !in NamesOf(reg);
    r
  }

  /** A registered flag is found: by the new descriptor when the name was not
      registered before, otherwise by the earlier descriptor. */
  lemma AddThenFind(reg: Registry, name: string, value: Handle)
    ensures Find(Add(reg, name, value), name).Some?
    ensures name !in NamesOf(reg) ==> Find(Add(reg, name, value), name) == Some(|reg|)
    ensures name in NamesOf(reg) ==> Find(Add(reg, name, value), name) == Find(reg, name)
  {
  }
}
