/** When a change to a command's input breaks its callers: the classifier of the changelog,
    measured against the payloads each version accepts. */
module Compatibility {
  import opened Wrappers

  datatype TypedSlot = TypedSlot(name: string, required: bool)

  datatype CommandInput = Short(fields: seq<string>) | Typed(slots: seq<TypedSlot>) | Empty

  datatype Reason =
    | RemovedField(name: string)
    | AddedRequired(name: string)
    | BecameRequired(name: string)
    | AddedOptional(name: string)

  /** The first slot of that name. */
  function Find(slots: seq<TypedSlot>, name: string): Option<TypedSlot> {
    if slots == [] then None
    else if slots[0].name == name then Some(slots[0])
    else Find(slots[1..], name)
  }

  function FirstRemoved(before: seq<TypedSlot>, after: seq<TypedSlot>): Option<Reason> {
    if before == [] then None
    else if Find(after, before[0].name).None? then Some(RemovedField(before[0].name))
    else FirstRemoved(before[1..], after)
  }

  function FirstTightened(before: seq<TypedSlot>, after: seq<TypedSlot>): Option<Reason> {
    if after == [] then None
    else
      var slot := after[0];
      var was := Find(before, slot.name);
      if slot.required && was.None? then Some(AddedRequired(slot.name))
      else if slot.required && !was.value.required then Some(BecameRequired(slot.name))
      else FirstTightened(before, after[1..])
  }

  /** The first change, if any, that can break a caller; only typed inputs are compared. */
  function InputBreakingChange(before: CommandInput, after: CommandInput): Option<Reason> {
    if !before.Typed? || !after.Typed? then None
    else
      var removed := FirstRemoved(before.slots, after.slots);
      if removed.Some? then removed else FirstTightened(before.slots, after.slots)
  }

  function FirstAddedOptional(before: seq<TypedSlot>, after: seq<TypedSlot>): Option<Reason> {
    if after == [] then None
    else if !after[0].required && Find(before, after[0].name).None? then Some(AddedOptional(after[0].name))
    else FirstAddedOptional(before, after[1..])
  }

  function InputNonBreakingChange(before: CommandInput, after: CommandInput): Option<Reason> {
    if !before.Typed? || !after.Typed? then None else FirstAddedOptional(before.slots, after.slots)
  }

  // ---- payloads -----------------------------------------------------------------------------------

  function Names(slots: seq<TypedSlot>): set<string> {
    set s | s in slots :: s.name
  }

  /** A payload, as the set of names it supplies: all known, and every required one there. */
  predicate Accepts(slots: seq<TypedSlot>, payload: set<string>) {
    payload <= Names(slots) && forall s :: s in slots && s.required ==> s.name in payload
  }

  /** Slots of the same name agree on being required; distinct names always do. */
  predicate Consistent(slots: seq<TypedSlot>) {
    forall s, t :: s in slots && t in slots && s.name == t.name ==> s.required == t.required
  }

  lemma {:induction false} FindByName(slots: seq<TypedSlot>, name: string)
    ensures match Find(slots, name)
            case None => name !in Names(slots)
            case Some(s) => s in slots && s.name == name
    decreases |slots|
  {
    if slots != [] {
      FindByName(slots[1..], name);
      assert slots == [slots[0]] + slots[1..];
    }
  }

  lemma {:induction false} RemovedIff(before: seq<TypedSlot>, after: seq<TypedSlot>)
    ensures match FirstRemoved(before, after)
            case None => Names(before) <= Names(after)
            case Some(r) => r.RemovedField? && r.name in Names(before) && r.name !in Names(after)
    decreases |before|
  {
    if before != [] {
      FindByName(after, before[0].name);
      RemovedIff(before[1..], after);
      assert before == [before[0]] + before[1..];
    }
  }

  /** A required slot of the new version whose name the old one lacks or has first as optional. */
  predicate Tightens(before: seq<TypedSlot>, s: TypedSlot) {
    s.required && (Find(before, s.name).None? || !Find(before, s.name).value.required)
  }

  lemma {:induction false} TightenedIff(before: seq<TypedSlot>, after: seq<TypedSlot>)
    ensures match FirstTightened(before, after)
            case None => forall s :: s in after ==> !Tightens(before, s)
            case Some(r) => exists s :: s in after && Tightens(before, s) && s.name == r.name
    decreases |after|
  {
    if after != [] {
      TightenedIff(before, after[1..]);
      assert after == [after[0]] + after[1..];
      if Tightens(before, after[0]) {
        assert after[0] in after;
      }
    }
  }

  /** Nothing is reported exactly when every payload accepted before is accepted now. */
  lemma NotBreakingIff(before: seq<TypedSlot>, after: seq<TypedSlot>)
    requires Consistent(before)
    ensures InputBreakingChange(Typed(before), Typed(after)).None?
            <==> forall payload :: Accepts(before, payload) ==> Accepts(after, payload)
  {
    RemovedIff(before, after);
    TightenedIff(before, after);
    if FirstRemoved(before, after).Some? {
      assert !Accepts(after, Names(before));
    } else if FirstTightened(before, after).Some? {
      var s :| s in after && Tightens(before, s);
      FindByName(before, s.name);
      if Find(before, s.name).Some? {
        assert !Accepts(after, Names(before) - {s.name});
      } else {
        assert !Accepts(after, Names(before));
      }
    } else {
      forall payload | Accepts(before, payload) ensures Accepts(after, payload) {
        forall s | s in after && s.required ensures s.name in payload {
          assert !Tightens(before, s);
          FindByName(before, s.name);
        }
      }
    }
  }

  /** Step by step compatible versions are compatible from first to last. */
  lemma NotBreakingTransitive(a: seq<TypedSlot>, b: seq<TypedSlot>, c: seq<TypedSlot>)
    requires InputBreakingChange(Typed(a), Typed(b)).None? && InputBreakingChange(Typed(b), Typed(c)).None?
    ensures InputBreakingChange(Typed(a), Typed(c)).None?
  {
    RemovedIff(a, b);
    RemovedIff(b, c);
    RemovedIff(a, c);
    TightenedIff(a, b);
    TightenedIff(b, c);
    TightenedIff(a, c);
    forall s | s in c ensures !Tightens(a, s) {
      assert !Tightens(b, s);
      FindByName(b, s.name);
      if s.required {
        assert !Tightens(a, Find(b, s.name).value);
      }
    }
  }

  /** An untyped version in between hides a break: neither step is reported, the whole is. */
  lemma UntypedHidesBreak()
    ensures var a, b, c := Typed([TypedSlot("amount", true)]), Short(["amount"]), Typed([]);
            && InputBreakingChange(a, b).None? && InputBreakingChange(b, c).None?
            && InputBreakingChange(a, c) == Some(RemovedField("amount"))
  {
    assert Find([], "amount").None?;
  }

  /** A name that no slot has. */
  lemma {:induction false} FreshName(slots: seq<TypedSlot>) returns (name: string)
    ensures forall s :: s in slots ==> |s.name| < |name|
  {
    if slots == [] {
      name := "x";
    } else {
      var rest := FreshName(slots[1..]);
      name := rest + slots[0].name + "x";
      assert slots == [slots[0]] + slots[1..];
    }
  }

  /** A slot that is required for the first time is always reported. */
  lemma FreshRequiredIsReported(before: seq<TypedSlot>) returns (after: seq<TypedSlot>)
    ensures InputBreakingChange(Typed(before), Typed(after)).Some?
  {
    var name := FreshName(before);
    after := [TypedSlot(name, true)];
    FindByName(before, name);
    TightenedIff(before, after);
    assert Tightens(before, after[0]);
  }

  /** Whether whatever `a` would break with is still seen from `b`. */
  ghost predicate KeepsWatch(a: CommandInput, b: CommandInput) {
    forall c :: InputBreakingChange(b, c).None? ==> InputBreakingChange(a, c).None?
  }

  /** After a silent step, later silence still speaks for the start exactly when the step
      did not go from a typed input to an untyped one. */
  lemma SilenceCarriesIff(a: CommandInput, b: CommandInput)
    requires InputBreakingChange(a, b).None?
    ensures KeepsWatch(a, b) <==> !a.Typed? || b.Typed?
  {
    if a.Typed? && b.Typed? {
      forall c | InputBreakingChange(b, c).None? ensures InputBreakingChange(a, c).None? {
        if c.Typed? {
          NotBreakingTransitive(a.slots, b.slots, c.slots);
        }
      }
    } else if a.Typed? {
      var after := FreshRequiredIsReported(a.slots);
      assert InputBreakingChange(b, Typed(after)).None?;
    }
  }

  /** An unchanged input is reported exactly when a required slot repeats the name of an
      earlier, optional one. */
  lemma UnchangedIsSilentIff(slots: seq<TypedSlot>)
    ensures InputBreakingChange(Typed(slots), Typed(slots)).None?
            <==> forall s :: s in slots && s.required ==> Find(slots, s.name) == Some(s)
  {
    RemovedIff(slots, slots);
    TightenedIff(slots, slots);
    forall s | s in slots ensures Tightens(slots, s) <==> s.required && Find(slots, s.name) != Some(s) {
      FindByName(slots, s.name);
    }
  }

  /** An optional slot followed by a required one of the same name is reported against itself. */
  lemma RepeatedSlotIsReported()
    ensures var input := Typed([TypedSlot("a", false), TypedSlot("a", true)]);
            InputBreakingChange(input, input) == Some(BecameRequired("a"))
  {
    var optional, required := TypedSlot("a", false), TypedSlot("a", true);
    var slots := [optional, required];
    assert slots[1..] == [required] && Find(slots, "a") == Some(optional);
    assert FirstTightened(slots, slots) == FirstTightened(slots, [required]);
  }

  lemma {:induction false} AddedOptionalIff(before: seq<TypedSlot>, after: seq<TypedSlot>)
    ensures match FirstAddedOptional(before, after)
            case None => forall s :: s in after && !s.required ==> s.name in Names(before)
            case Some(r) => r.AddedOptional? && r.name in Names(after) && r.name !in Names(before)
    decreases |after|
  {
    if after != [] {
      FindByName(before, after[0].name);
      AddedOptionalIff(before, after[1..]);
      assert after == [after[0]] + after[1..];
      assert Names(after[1..]) <= Names(after);
    }
  }

  /** Where no break is reported, an addition is reported exactly when the new version knows
      more names, and so accepts payloads that the old one did not. */
  lemma AdditionIff(before: seq<TypedSlot>, after: seq<TypedSlot>)
    requires InputBreakingChange(Typed(before), Typed(after)).None?
    ensures InputNonBreakingChange(Typed(before), Typed(after)).Some? <==> Names(before) < Names(after)
    ensures Names(before) < Names(after) ==> Accepts(after, Names(after)) && !Accepts(before, Names(after))
  {
    RemovedIff(before, after);
    TightenedIff(before, after);
    AddedOptionalIff(before, after);
    if InputNonBreakingChange(Typed(before), Typed(after)).None? {
      forall s | s in after ensures s.name in Names(before) {
        assert !Tightens(before, s);
        FindByName(before, s.name);
      }
    }
  }
}
