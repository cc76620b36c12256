/**
 * The breakpoint registry: source name to the set of its breakpoint lines.
 * `None` stands for a registry that was never created or was reset; the
 * operations below are the state changes `Runtime` applies to it.
 */
module Breakpoints {
  import opened Wrappers
  import opened Values

  type Registry = map<string, set<int>>

  /** Is `line` of `source` a registered breakpoint? */
  predicate Registered(reg: Option<Registry>, source: string, line: int) {
    reg.Some? && source in reg.value && line in reg.value[source]
  }

  /** `hasBreakpoints()`: the registry exists and has at least one source entry (possibly with no lines). */
  predicate HasBreakpoints(reg: Option<Registry>) {
    reg.Some? && |reg.value| != 0
  }

  /** `registerBreakpoint`: create the registry and the source's line set when missing, then add the line. */
  function Register(reg: Option<Registry>, source: string, line: int): Registry {
    var m := if reg.Some? then reg.value else map[];
    var m' := if source in m then m else m[source := {}];
    m'[source := m'[source] + {line}]
  }

  /**
   * `removeBreakpoint`: drop the line from the source's set, keeping the source
   * entry. With a registry but no entry for the source, the lookup yields null
   * and the removal throws a NullPointerException.
   */
  function Remove(reg: Option<Registry>, source: string, line: int): Result<Option<Registry>, Error> {
    if reg.None? then Ok(None)
    else if source !in reg.value then Err(NullPointer)
    else Ok(Some(reg.value[source := reg.value[source] - {line}]))
  }

  /** `clearAllBreakpoints`: empty an existing registry. */
  function ClearAll(reg: Option<Registry>): Option<Registry> {
    if reg.Some? then Some(map[]) else None
  }

  // ---------------------------------------------------------------------------
  // Properties of the registry operations

  /** Registering adds exactly one breakpoint and one source key at most. */
  lemma RegisterAdds(reg: Option<Registry>, source: string, line: int, s: string, l: int)
    ensures Registered(Some(Register(reg, source, line)), s, l) <==> (s == source && l == line) || Registered(reg, s, l)
    ensures s in Register(reg, source, line) <==> s == source || (reg.Some? && s in reg.value)
    ensures HasBreakpoints(Some(Register(reg, source, line)))
  {
  }

  /** Registering the same breakpoint twice is the same as registering it once. */
  lemma RegisterIdempotent(reg: Option<Registry>, source: string, line: int)
    ensures Register(Some(Register(reg, source, line)), source, line) == Register(reg, source, line)
  {
    var r := Register(reg, source, line);
    assert r[source] + {line} == r[source];
  }

  /**
   * Removing fails exactly when the registry exists without an entry for the
   * source; otherwise it drops that one breakpoint and keeps every key, so
   * `hasBreakpoints()` does not change.
   */
  lemma RemoveDrops(reg: Option<Registry>, source: string, line: int, s: string, l: int)
    ensures Remove(reg, source, line).Err? <==> reg.Some? && source !in reg.value
    ensures Remove(reg, source, line).Ok? ==>
      var after := Remove(reg, source, line).value;
      && (Registered(after, s, l) <==> Registered(reg, s, l) && !(s == source && l == line))
      && (after.Some? <==> reg.Some?)
      && (after.Some? ==> after.value.Keys == reg.value.Keys)
      && HasBreakpoints(after) == HasBreakpoints(reg)
  {
    if reg.Some? && source in reg.value {
      var after := reg.value[source := reg.value[source] - {line}];
      assert after.Keys == reg.value.Keys;
    }
  }

  /** Removing a just-registered line makes it no breakpoint, but the source entry stays behind. */
  lemma RegisterThenRemove(reg: Option<Registry>, source: string, line: int)
    ensures Remove(Some(Register(reg, source, line)), source, line).Ok?
    ensures var after := Remove(Some(Register(reg, source, line)), source, line).value;
      !Registered(after, source, line) && HasBreakpoints(after)
  {
    RemoveDrops(Some(Register(reg, source, line)), source, line, source, line);
    RegisterAdds(reg, source, line, source, line);
  }

  /** After clearing, no breakpoint is registered and `hasBreakpoints()` is false. */
  lemma ClearAllEmpties(reg: Option<Registry>, s: string, l: int)
    ensures !HasBreakpoints(ClearAll(reg)) && !Registered(ClearAll(reg), s, l)
    ensures ClearAll(reg).Some? <==> reg.Some?
  {
  }
}
